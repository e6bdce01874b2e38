/** The log and commit bookkeeping of one RAFT node under any sequence of messages,
    ticks and client requests whatsoever, well-meant or not. */
module RaftLog {
  import opened Raft

  // ---- the leader's commit scan ------------------------------------------------

  /** The peers known to hold index n: what the inner counting loop stands for. */
  ghost function Holders(peers: seq<Peer>, n: nat): set<nat> {
    set i | 0 <= i < |peers| && peers[i].matchIndex >= n
  }

  lemma {:induction false} MatchCountIsHolders(peers: seq<Peer>, n: nat)
    ensures MatchCount(peers, n) == |Holders(peers, n)|
  {
    if peers != [] {
      var k := |peers| - 1;
      var init := peers[..k];
      MatchCountIsHolders(init, n);
      if peers[k].matchIndex >= n {
        assert Holders(peers, n) == Holders(init, n) + {k};
      } else {
        assert Holders(peers, n) == Holders(init, n);
      }
    }
  }

  /** The scan moves the commit index to the greatest committable index, or leaves it. */
  lemma {:induction false} ScanIsGreatest(s: Node, n: nat, commit: nat)
    requires commit < n
    ensures var r := ScanFrom(s, n, commit);
            && (r == commit || (n <= r && Committable(s, r)))
            && (forall k :: n <= k && Committable(s, k) ==> k <= r)
    decreases |s.log| - n
  {
    if n < |s.log| {
      if Committable(s, n) {
        ScanIsGreatest(s, n + 1, n);
      } else {
        ScanIsGreatest(s, n + 1, commit);
      }
    }
  }

  /** Index k is above the old commit index, has the leader's term, and is held by a
      majority of the cluster: the leader and the peers whose match index reaches it. */
  ghost predicate HeldByMajority(s: Node, peers: seq<Peer>, k: nat) {
    && s.commit < k < |s.log|
    && s.log[k].term == s.term
    && 1 + |Holders(peers, k)| >= Majority(s)
  }

  /** The commit index a leader reaches after a successful append response: the greatest
      index a majority holds, if there is one above the old commit index. */
  lemma CommitRule(s: Node, from: nat, term: u64, matchIndex: u64)
    requires s.role == Leader && term <= s.term && FindPeer(s.peers, from) < |s.peers|
    ensures var s' := HandleAppendResponse(s, from, term, true, matchIndex);
            && (s'.commit == s.commit || HeldByMajority(s, s'.peers, s'.commit))
            && (forall k: nat :: HeldByMajority(s, s'.peers, k) ==> k <= s'.commit)
            && s'.peers[FindPeer(s.peers, from)].matchIndex == matchIndex
  {
    var i := FindPeer(s.peers, from);
    var s1 := s.(peers := s.peers[i := Peer(s.peers[i].id, (matchIndex + 1) % U64, matchIndex)]);
    ScanIsGreatest(s1, s1.commit + 1, s1.commit);
    forall k: nat ensures MatchCount(s1.peers, k) == |Holders(s1.peers, k)| {
      MatchCountIsHolders(s1.peers, k);
    }
    forall k: nat | HeldByMajority(s, s1.peers, k) ensures Committable(s1, k) {
    }
  }

  // ---- every operation -----------------------------------------------------------

  datatype Op =
    | Message(m: Raft.Message)
    | Timer(due: bool)
    | Client(kind: nat, data: seq<bv8>, allocOk: bool)

  ghost function After(s: Node, op: Op): Node
    requires WellFormed(s)
  {
    match op
    case Message(m) => Receive(s, m).node
    case Timer(due) => Tick(s, due).node
    case Client(kind, data, ok) => Submit(s, kind, data, ok).0
  }

  /** The entries an operation hands to the state machine. */
  ghost function Applies(s: Node, op: Op): seq<Entry>
    requires WellFormed(s)
  {
    if op.Timer? then NewlyApplied(s) else []
  }

  /** Every slot of the log carries its own position. */
  ghost predicate Indexed(s: Node) {
    forall i :: 0 <= i < |s.log| ==> s.log[i].index == i
  }

  ghost predicate Extends(s: Node, s': Node) {
    && s.log <= s'.log
    && s.commit <= s'.commit
    && s.applied <= s'.applied
  }

  ghost predicate Keeps(s: Node, s': Node) {
    && WellFormed(s')
    && Extends(s, s')
    && (Indexed(s) ==> Indexed(s'))
  }

  lemma AppendResponseKeeps(s: Node, from: nat, term: u64, success: bool, matchIndex: u64)
    requires WellFormed(s)
    ensures Keeps(s, HandleAppendResponse(s, from, term, success, matchIndex))
    ensures HandleAppendResponse(s, from, term, success, matchIndex).applied == s.applied
  {
    if term <= s.term && s.role == Leader && FindPeer(s.peers, from) < |s.peers| && success {
      var i := FindPeer(s.peers, from);
      var s1 := s.(peers := s.peers[i := Peer(s.peers[i].id, (matchIndex + 1) % U64, matchIndex)]);
      ScanIsGreatest(s1, s1.commit + 1, s1.commit);
    }
  }

  lemma MessageKeeps(s: Node, m: Raft.Message)
    requires WellFormed(s)
    ensures Keeps(s, Receive(s, m).node) && Receive(s, m).node.applied == s.applied
  {
    hide FindPeer, ScanFrom, UpToDate, HandleAppendResponse;
    if m.AppendResponse? {
      AppendResponseKeeps(s, m.from, m.term, m.success, m.matchIndex);
    }
  }

  /** Any operation keeps the bounds, never shortens or rewrites the log and never
      takes back a commit. */
  lemma BookkeepingStep(s: Node, op: Op)
    requires WellFormed(s)
    ensures WellFormed(After(s, op))
    ensures Extends(s, After(s, op))
    ensures Indexed(s) ==> Indexed(After(s, op))
    ensures After(s, op).applied < |s.log|
    ensures Applies(s, op) == s.log[s.applied + 1..After(s, op).applied + 1]
  {
    if op.Message? {
      hide Receive;
      MessageKeeps(s, op.m);
    }
  }

  ghost function RunOps(s: Node, ops: seq<Op>): (r: (Node, seq<Entry>))
    requires WellFormed(s)
    ensures WellFormed(r.0)
  {
    if ops == [] then (s, [])
    else
      var (mid, out) := RunOps(s, ops[..|ops| - 1]);
      BookkeepingStep(mid, ops[|ops| - 1]);
      (After(mid, ops[|ops| - 1]), out + Applies(mid, ops[|ops| - 1]))
  }

  /** Over any run of a freshly started node, the entries handed to the state machine
      are exactly those at 1, 2, .., last_applied, each once and in this order, and
      last_applied <= commit_index <= last_index <= 1023. */
  lemma {:induction false} AppliedOnceInOrder(id: nat, members: seq<nat>, ops: seq<Op>)
    requires |members| <= MAX_NODES
    ensures var (s, out) := RunOps(InitialNode(id, members), ops);
            && s.applied <= s.commit <= LastIndex(s) <= LOG_SIZE - 1
            && out == s.log[1..s.applied + 1]
            && (forall k :: 0 <= k < |out| ==> out[k].index == k + 1)
            && Indexed(s)
  {
    hide After, Applies, RunOps;
    if ops == [] {
      RunNone(InitialNode(id, members));
    } else {
      var before := ops[..|ops| - 1];
      AppliedOnceInOrder(id, members, before);
      var (mid, out) := RunOps(InitialNode(id, members), before);
      var op := ops[|ops| - 1];
      BookkeepingStep(mid, op);
      RunLast(InitialNode(id, members), ops);
      SliceOn(mid.log, After(mid, op).log, mid.applied, After(mid, op).applied);
    }
  }

  lemma RunNone(s: Node)
    requires WellFormed(s)
    ensures RunOps(s, []) == (s, [])
  {
  }

  lemma RunLast(s: Node, ops: seq<Op>)
    requires WellFormed(s) && ops != []
    ensures var (mid, out) := RunOps(s, ops[..|ops| - 1]);
            RunOps(s, ops) == (After(mid, ops[|ops| - 1]), out + Applies(mid, ops[|ops| - 1]))
  {
    hide After, Applies;
  }

  lemma SliceOn(l: seq<Entry>, l': seq<Entry>, a: nat, b: nat)
    requires l <= l' && a <= b < |l|
    ensures l[1..a + 1] + l[a + 1..b + 1] == l'[1..b + 1]
  {
    assert l[1..b + 1] == l'[1..b + 1];
  }

  /** A later state keeps every commit and every log entry of an earlier one. */
  lemma {:induction false} CommitsAreFinal(s: Node, ops: seq<Op>, more: seq<Op>)
    requires WellFormed(s)
    ensures Extends(RunOps(s, ops).0, RunOps(s, ops + more).0)
  {
    hide RunOps, After, Applies, WellFormed;
    if more == [] {
      assert ops + more == ops;
    } else {
      var k := |more| - 1;
      CommitsAreFinal(s, ops, more[..k]);
      assert (ops + more)[..|ops + more| - 1] == ops + more[..k];
      RunLast(s, ops + more);
      BookkeepingStep(RunOps(s, ops + more[..k]).0, more[k]);
    }
  }

  // ---- terms in the log ---------------------------------------------------------

  /** Log terms never fall along the log and none exceeds the current term. */
  ghost predicate OrderedTerms(s: Node) {
    && (forall i, j :: 0 <= i < j < |s.log| ==> s.log[i].term <= s.log[j].term)
    && s.log != [] && s.log[0].term == 0
    && LastLogTerm(s) <= s.term
  }

  /** An election timeout at the last 64-bit term starts over at term 0. */
  ghost predicate TermWraps(s: Node, op: Op) {
    op.Timer? && op.due && s.role != Leader && s.term == U64 - 1
  }

  /** A handler leaves the log alone or appends one entry of the current term. */
  ghost predicate AppendsAtMostOne(s: Node, s': Node) {
    && s.term <= s'.term
    && (|| s'.log == s.log
        || (s'.term == s.term && |s'.log| == |s.log| + 1 && s'.log[..|s.log|] == s.log && s'.log[|s.log|].term == s.term))
  }

  lemma AppendKeepsOrder(s: Node, s': Node)
    requires OrderedTerms(s) && AppendsAtMostOne(s, s')
    ensures OrderedTerms(s')
  {
    forall i, j | 0 <= i < j < |s'.log| ensures s'.log[i].term <= s'.log[j].term {
      assert s'.log[i] == s.log[i];
      assert j < |s.log| ==> s'.log[j] == s.log[j];
      assert i < |s.log| - 1 ==> s.log[i].term <= s.log[|s.log| - 1].term;
    }
    assert s'.log[0] == s.log[0];
  }

  /** The order on log terms survives an operation exactly when the operation does not
      wrap the term counter of a node that holds an entry of a later term than 0. */
  lemma OrderedTermsStep(s: Node, op: Op)
    requires WellFormed(s) && OrderedTerms(s)
    ensures OrderedTerms(After(s, op)) <==> !(TermWraps(s, op) && LastLogTerm(s) > 0)
    ensures s.term <= After(s, op).term <==> !TermWraps(s, op)
  {
    if op.Timer? && op.due && s.role != Leader {
      TimeoutOrder(s);
    } else {
      hide OrderedTerms;
      OrdinaryStep(s, op);
      AppendKeepsOrder(s, After(s, op));
    }
  }

  lemma TimeoutOrder(s: Node)
    requires WellFormed(s) && OrderedTerms(s) && s.role != Leader
    ensures OrderedTerms(After(s, Timer(true))) <==> !(s.term == U64 - 1 && LastLogTerm(s) > 0)
    ensures s.term <= After(s, Timer(true)).term <==> s.term != U64 - 1
  {
    hide Broadcast;
  }

  lemma OrdinaryStep(s: Node, op: Op)
    requires WellFormed(s) && !(op.Timer? && op.due && s.role != Leader)
    ensures AppendsAtMostOne(s, After(s, op))
  {
    hide Broadcast, Heartbeats, ScanFrom, FindPeer;
  }

  /** No operation of the run wraps the term counter. */
  ghost predicate NeverWraps(s: Node, ops: seq<Op>)
    requires WellFormed(s)
  {
    forall k :: 0 <= k < |ops| ==> !TermWraps(RunOps(s, ops[..k]).0, ops[k])
  }

  lemma {:induction false} LogTermsOrdered(id: nat, members: seq<nat>, ops: seq<Op>)
    requires |members| <= MAX_NODES
    requires NeverWraps(InitialNode(id, members), ops)
    ensures OrderedTerms(RunOps(InitialNode(id, members), ops).0)
  {
    var s := InitialNode(id, members);
    if ops != [] {
      var k := |ops| - 1;
      var before := ops[..k];
      assert forall j :: 0 <= j < k ==> before[..j] == ops[..j];
      LogTermsOrdered(id, members, before);
      OrderedTermsStep(RunOps(s, before).0, ops[k]);
    }
  }

  /** A run of a freshly started node whose term wraps: it wins an election, is then told of
      the last 64-bit term, and times out again. */
  const WRAPPING_OPS: seq<Op> :=
    [Timer(true), Message(VoteResponse(1, 1, true)), Message(VoteRequest(1, U64 - 1, 1, 1)), Timer(true)]

  /** The order of log terms is lost in that run. */
  lemma TermWrapBreaksOrder()
    ensures !OrderedTerms(RunOps(InitialNode(0, [0, 1, 2]), WRAPPING_OPS).0)
  {
    hide After, OrderedTerms, RunOps;
    var s0 := InitialNode(0, [0, 1, 2]);
    RunFour(s0, Timer(true), Message(VoteResponse(1, 1, true)), Message(VoteRequest(1, U64 - 1, 1, 1)), Timer(true));
    WrapElection(s0);
    WrapTimeout(After(After(s0, Timer(true)), Message(VoteResponse(1, 1, true))));
  }

  lemma RunFour(s: Node, a: Op, b: Op, c: Op, d: Op)
    requires WellFormed(s)
    ensures WellFormed(After(s, a)) && WellFormed(After(After(s, a), b)) && WellFormed(After(After(After(s, a), b), c))
    ensures RunOps(s, [a, b, c, d]).0 == After(After(After(After(s, a), b), c), d)
  {
    hide After, Applies, RunOps, WellFormed;
    var ops := [a, b, c, d];
    BookkeepingStep(s, a);
    BookkeepingStep(After(s, a), b);
    BookkeepingStep(After(After(s, a), b), c);
    assert ops[..3] == [a, b, c] && [a, b, c][..2] == [a, b] && [a, b][..1] == [a] && [a][..0] == [];
    RunNone(s);
    RunLast(s, [a]);
    RunLast(s, [a, b]);
    RunLast(s, [a, b, c]);
    RunLast(s, ops);
  }

  lemma WrapElection(s: Node)
    requires s == InitialNode(0, [0, 1, 2])
    ensures WellFormed(s) && WellFormed(After(s, Timer(true)))
    ensures var s' := After(After(s, Timer(true)), Message(VoteResponse(1, 1, true)));
            s'.log == [ZERO_ENTRY, Entry(1, 1, NOOP, 0, None)] && s'.term == 1 && s'.role == Leader
  {
    hide Broadcast;
    var s1 := After(s, Timer(true));
    assert s1.role == Candidate && s1.votes == 1 && s1.term == 1 && s1.log == s.log;
  }

  lemma WrapTimeout(s: Node)
    requires WellFormed(s) && s.log == [ZERO_ENTRY, Entry(1, 1, NOOP, 0, None)] && s.term == 1 && s.role == Leader
    ensures var s' := After(s, Message(VoteRequest(1, U64 - 1, 1, 1)));
            WellFormed(s') && !OrderedTerms(After(s', Timer(true)))
  {
    hide Broadcast;
    var s' := After(s, Message(VoteRequest(1, U64 - 1, 1, 1)));
    assert s'.role == Follower && s'.term == U64 - 1 && s'.log == s.log;
  }
}
