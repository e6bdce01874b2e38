/** The RAFT node of src/storage/distributed.c: its state, its messages and the
    effect of each handler, written as functions from the old node state to the new
    one. The class in RaftNode.dfy is the code itself, proved to compute these
    functions; the lemmas about runs are proved of these functions. */
module Raft {

  const LOG_SIZE: nat := 1024
  const MAX_NODES: nat := 16
  const U32: nat := 0x1_0000_0000
  const U64: nat := 0x1_0000_0000_0000_0000

  /** The values of the source's uint64_t. */
  type u64 = x: int | 0 <= x < U64

  datatype Option<+T> = None | Some(value: T)

  datatype Role = Follower | Candidate | Leader

  datatype Entry = Entry(index: nat, term: u64, kind: nat, dataLen: nat, data: Option<seq<bv8>>)

  /** The slot the zeroed log array holds at index 0, where no entry is ever stored. */
  const ZERO_ENTRY := Entry(0, 0, 0, 0, None)

  datatype Peer = Peer(id: nat, nextIndex: u64, matchIndex: u64)

  datatype Message =
    | VoteRequest(from: nat, term: u64, lastLogIndex: nat, lastLogTerm: u64)
    | VoteResponse(from: nat, term: u64, granted: bool)
    | AppendRequest(from: nat, term: u64, prevLogIndex: u64, prevLogTerm: u64, leaderCommit: nat, entryCount: nat)
    | AppendResponse(from: nat, term: u64, success: bool, matchIndex: u64)
    | Unrecognised(kind: nat)

  datatype Packet = Packet(to: nat, msg: Message)

  /** One node. `log` holds the slots 0 .. last_index of the log array, so
      last_index is |log| - 1; first_index is 0 and is never changed. */
  datatype Node = Node(
    id: nat, role: Role, term: u64, votedFor: int,
    log: seq<Entry>, commit: nat, applied: nat,
    leaderId: nat, votes: nat, peers: seq<Peer>)

  /** What a handler leaves behind: the new state and the messages it sends. */
  datatype Outcome = Outcome(node: Node, sent: seq<Packet>)

  /** The bookkeeping every operation keeps. */
  predicate WellFormed(s: Node) {
    && 1 <= |s.log| <= LOG_SIZE
    && s.applied <= s.commit < |s.log|
    && |s.peers| <= MAX_NODES
  }

  // ---- helpers -------------------------------------------------------------

  /** The cast (int32_t) of an unsigned 32-bit node id. */
  function ToInt32(x: nat): int {
    var y := x % U32;
    if y < 0x8000_0000 then y else y - U32
  }

  function LastIndex(s: Node): nat {
    if s.log == [] then 0 else |s.log| - 1
  }

  function LastLogTerm(s: Node): u64 {
    if LastIndex(s) == 0 then 0 else s.log[LastIndex(s)].term
  }

  function Majority(s: Node): nat {
    |s.peers| / 2 + 1
  }

  /** Order on the last log positions (term first, then index): section 5.4.1 of the Raft paper. */
  predicate UpToDate(term: nat, index: nat, otherTerm: nat, otherIndex: nat) {
    term > otherTerm || (term == otherTerm && index >= otherIndex)
  }

  function AppendEntry(s: Node, kind: nat, data: seq<bv8>, allocOk: bool): (r: (Node, bool))
  {
    if LastIndex(s) >= LOG_SIZE - 1 then  // log full
      (s, false)
    else
      var stored := if |data| > 0 && allocOk then Some(data) else None;
      (s.(log := s.log + [Entry(|s.log|, s.term, kind, |data|, stored)]), |data| == 0 || allocOk)
  }

  /** One message to every listed node but the sender. */
  function Broadcast(peers: seq<Peer>, self: nat, msg: Message): seq<Packet> {
    if peers == [] then []
    else
      var init := Broadcast(peers[..|peers| - 1], self, msg);
      var last := peers[|peers| - 1].id;
      if last == self then init else init + [Packet(last, msg)]
  }

  // ---- state transitions ---------------------------------------------------

  function BecomeFollower(s: Node, term: u64): Node {
    s.(role := Follower, term := term, votedFor := -1, votes := 0)
  }

  function BecomeCandidate(s: Node): Outcome {
    var c := s.(role := Candidate, term := (s.term + 1) % U64, votedFor := ToInt32(s.id), votes := 1);
    Outcome(c, Broadcast(c.peers, c.id, VoteRequest(c.id, c.term, LastIndex(c), LastLogTerm(c))))
  }

  function ResetPeers(peers: seq<Peer>, next: u64): seq<Peer> {
    seq(|peers|, i requires 0 <= i < |peers| => Peer(peers[i].id, next, 0))
  }

  const NOOP: nat := 0

  function BecomeLeader(s: Node): Node {
    var l := s.(role := Leader, leaderId := s.id, peers := ResetPeers(s.peers, (LastIndex(s) + 1) % U64));
    AppendEntry(l, NOOP, [], true).0
  }

  // ---- message handlers ----------------------------------------------------

  function HandleVoteRequest(s: Node, from: nat, term: u64, lastLogIndex: nat, lastLogTerm: u64): Outcome {
    var s1 := if term > s.term then BecomeFollower(s, term) else s;
    var granted :=
      && term >= s1.term
      && (s1.votedFor == -1 || s1.votedFor == ToInt32(from))
      && UpToDate(lastLogTerm, lastLogIndex, LastLogTerm(s1), LastIndex(s1));
    var s2 := if granted then s1.(votedFor := ToInt32(from)) else s1;
    Outcome(s2, [Packet(from, VoteResponse(s.id, s2.term, granted))])
  }

  function HandleVoteResponse(s: Node, term: u64, granted: bool): Node {
    if term > s.term then BecomeFollower(s, term)
    else if s.role != Candidate || term != s.term || !granted then s
    else
      var s1 := s.(votes := (s.votes + 1) % U32);
      if s1.votes >= Majority(s1) then BecomeLeader(s1) else s1
  }

  function HandleAppendRequest(s: Node, from: nat, term: u64, prevLogIndex: u64, prevLogTerm: u64,
                               leaderCommit: nat, entryCount: nat): Outcome
  {
    var s1 := if term > s.term then BecomeFollower(s, term) else s;
    if term < s1.term then
      Outcome(s1, [Packet(from, AppendResponse(s.id, s1.term, false, 0))])
    else
      var s2 := s1.(leaderId := from);
      var s3 := if s2.role == Candidate then BecomeFollower(s2, term) else s2;
      if prevLogIndex > 0 && (prevLogIndex >= |s3.log| || s3.log[prevLogIndex].term != prevLogTerm) then
        Outcome(s3, [Packet(from, AppendResponse(s.id, s3.term, false, 0))])
      else
        var commit := if leaderCommit <= s3.commit then s3.commit
                      else if leaderCommit > LastIndex(s3) then LastIndex(s3) else leaderCommit;
        Outcome(s3.(commit := commit),
                [Packet(from, AppendResponse(s.id, s3.term, true, (prevLogIndex + entryCount) % U64))])
  }

  /** The position of the first peer with this id, or |peers|. */
  function FindPeer(peers: seq<Peer>, id: nat): (i: nat)
    ensures i <= |peers|
    ensures i < |peers| ==> peers[i].id == id
    ensures forall j :: 0 <= j < i ==> peers[j].id != id
  {
    if peers == [] then 0
    else if peers[0].id == id then 0
    else 1 + FindPeer(peers[1..], id)
  }

  function MatchCount(peers: seq<Peer>, n: nat): nat {
    if peers == [] then 0
    else MatchCount(peers[..|peers| - 1], n) + (if peers[|peers| - 1].matchIndex >= n then 1 else 0)
  }

  /** Index n is held by a majority (counting the leader) and carries the current term: section 5.4.2. */
  predicate Committable(s: Node, n: nat) {
    && n < |s.log|
    && 1 + MatchCount(s.peers, n) >= Majority(s)
    && s.log[n].term == s.term
  }

  function ScanFrom(s: Node, n: nat, commit: nat): nat
    decreases |s.log| - n
  {
    if n >= |s.log| then commit
    else ScanFrom(s, n + 1, if Committable(s, n) then n else commit)
  }

  function HandleAppendResponse(s: Node, from: nat, term: u64, success: bool, matchIndex: u64): Node {
    if term > s.term then BecomeFollower(s, term)
    else if s.role != Leader then s
    else
      var i := FindPeer(s.peers, from);
      if i == |s.peers| then s
      else if success then
        var s1 := s.(peers := s.peers[i := Peer(s.peers[i].id, (matchIndex + 1) % U64, matchIndex)]);
        s1.(commit := ScanFrom(s1, s1.commit + 1, s1.commit))
      else if s.peers[i].nextIndex > 1 then
        s.(peers := s.peers[i := s.peers[i].(nextIndex := s.peers[i].nextIndex - 1)])
      else s
  }

  function Receive(s: Node, m: Message): Outcome {
    match m
    case VoteRequest(from, term, li, lt) => HandleVoteRequest(s, from, term, li, lt)
    case VoteResponse(_, term, granted) => Outcome(HandleVoteResponse(s, term, granted), [])
    case AppendRequest(from, term, pi, pt, lc, ec) => HandleAppendRequest(s, from, term, pi, pt, lc, ec)
    case AppendResponse(from, term, success, mi) => Outcome(HandleAppendResponse(s, from, term, success, mi), [])
    case Unrecognised(_) => Outcome(s, [])
  }

  // ---- timer and client requests -------------------------------------------

  /** The entries one tick hands to the state machine. */
  function NewlyApplied(s: Node): seq<Entry>
    requires WellFormed(s)
  {
    s.log[s.applied + 1..s.commit + 1]
  }

  function HeartbeatTo(s: Node, p: Peer): Packet {
    var prev := (p.nextIndex + U64 - 1) % U64;
    Packet(p.id, AppendRequest(s.id, s.term, prev, if prev < |s.log| then s.log[prev].term else 0, s.commit, 0))
  }

  function Heartbeats(s: Node, peers: seq<Peer>): seq<Packet> {
    if peers == [] then []
    else
      var init := Heartbeats(s, peers[..|peers| - 1]);
      var last := peers[|peers| - 1];
      if last.id == s.id then init else init + [HeartbeatTo(s, last)]
  }

  /** `due` says whether the timer this node is waiting on has run out. */
  function Tick(s: Node, due: bool): Outcome
    requires WellFormed(s)
  {
    var s1 := s.(applied := s.commit);
    if !due then Outcome(s1, [])
    else if s1.role == Leader then Outcome(s1, Heartbeats(s1, s1.peers))
    else BecomeCandidate(s1)
  }

  function Submit(s: Node, kind: nat, data: seq<bv8>, allocOk: bool): (r: (Node, bool))
  {
    if s.role != Leader then (s, false) else AppendEntry(s, kind, data, allocOk)
  }

  function InitialNode(id: nat, members: seq<nat>): Node {
    Node(id, Follower, 0, -1, [ZERO_ENTRY], 0, 0, 0, 0,
         seq(|members|, i requires 0 <= i < |members| => Peer(members[i], 1, 0)))
  }
}
