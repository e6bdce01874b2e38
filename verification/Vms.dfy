/** Virtual machine lifecycle and its counters (src/cluster/vm.c), and the rebalancing of
    src/cluster/scheduler.c, as functions on the manager's state. Counters are 32-bit. */
module Vms {

  const U32: nat := 0x1_0000_0000

  datatype Option<+T> = None | Some(value: T)

  datatype VmState = CREATED | STARTING | RUNNING | PAUSED | STOPPING | STOPPED | MIGRATING | ERROR

  datatype Vm = Vm(id: nat, state: VmState, host: Option<nat>)

  datatype Node = Node(online: bool, count: nat)

  /** The VM list, newest first; the cluster's nodes, and which one is local; running_count,
      vm_count and next_vm_id. A VM pointer is modelled by its place in the list and a node
      pointer by its place among the nodes. */
  datatype Manager = Manager(vms: seq<Vm>, nodes: seq<Node>, local: Option<nat>, running: nat, known: nat, nextId: nat)

  predicate Active(v: Vm) { v.state == RUNNING || v.state == PAUSED }

  function Inc(c: nat): nat { if c == U32 - 1 then 0 else c + 1 }
  function Dec(c: nat): nat { if c == 0 then U32 - 1 else c - 1 }

  ghost predicate WellFormed(m: Manager) {
    && (forall i :: 0 <= i < |m.nodes| ==> m.nodes[i].count < U32)
    && (m.local.Some? ==> m.local.value < |m.nodes|)
    && (forall i :: 0 <= i < |m.vms| ==> HostOk(m, m.vms[i]))
    && m.running < U32 && m.known < U32 && m.nextId < U32
  }

  ghost predicate HostOk(m: Manager, v: Vm) {
    v.host.Some? ==> v.host.value < |m.nodes|
  }

  // ---- sums ------------------------------------------------------------------------------------

  function Sum(s: seq<int>): int {
    if s == [] then 0 else s[0] + Sum(s[1..])
  }

  lemma {:induction false} SumSplit(a: seq<int>, b: seq<int>)
    ensures Sum(a + b) == Sum(a) + Sum(b)
  {
    if a == [] {
      assert a + b == b;
    } else {
      assert (a + b)[1..] == a[1..] + b;
      SumSplit(a[1..], b);
    }
  }

  lemma SumAt(s: seq<int>, i: nat)
    requires i < |s|
    ensures Sum(s) == Sum(s[..i]) + s[i] + Sum(s[i + 1..])
  {
    SumSplit(s[..i], s[i..]);
    assert s[..i] + s[i..] == s;
    assert s[i..][0] == s[i] && s[i..][1..] == s[i + 1..];
  }

  lemma SumUpdate(s: seq<int>, i: nat, x: int)
    requires i < |s|
    ensures Sum(s[i := x]) == Sum(s) - s[i] + x
  {
    SumAt(s, i);
    SumAt(s[i := x], i);
    assert s[i := x][..i] == s[..i] && s[i := x][i + 1..] == s[i + 1..];
  }

  lemma SumDrop(s: seq<int>, i: nat)
    requires i < |s|
    ensures Sum(s[..i] + s[i + 1..]) == Sum(s) - s[i]
  {
    SumAt(s, i);
    SumSplit(s[..i], s[i + 1..]);
  }

  lemma {:induction false} SumBounds(s: seq<int>)
    requires forall i :: 0 <= i < |s| ==> s[i] >= 0
    ensures Sum(s) >= 0
  {
    if s != [] {
      SumBounds(s[1..]);
    }
  }

  function Counts(nodes: seq<Node>): seq<int> {
    seq(|nodes|, (i: int) requires 0 <= i < |nodes| => nodes[i].count)
  }

  function SquareOf(x: int): int { x * x }

  function Squared(nodes: seq<Node>): seq<int> {
    seq(|nodes|, (i: int) requires 0 <= i < |nodes| => SquareOf(nodes[i].count))
  }

  function Flags(vms: seq<Vm>): seq<int> {
    seq(|vms|, (i: int) requires 0 <= i < |vms| => if Active(vms[i]) then 1 else 0)
  }

  /** The sum of vm_count over all nodes, the sum of the squares, and the number of RUNNING or
      PAUSED VMs. */
  function Total(nodes: seq<Node>): int { Sum(Counts(nodes)) }
  function Squares(nodes: seq<Node>): int { Sum(Squared(nodes)) }
  function ActiveVms(vms: seq<Vm>): int { Sum(Flags(vms)) }

  lemma NodeUpdate(nodes: seq<Node>, i: nat, n: Node)
    requires i < |nodes|
    ensures Total(nodes[i := n]) == Total(nodes) - nodes[i].count + n.count
    ensures Squares(nodes[i := n]) == Squares(nodes) - SquareOf(nodes[i].count) + SquareOf(n.count)
  {
    assert Counts(nodes[i := n]) == Counts(nodes)[i := n.count];
    SumUpdate(Counts(nodes), i, n.count);
    assert Squared(nodes[i := n]) == Squared(nodes)[i := SquareOf(n.count)];
    SumUpdate(Squared(nodes), i, SquareOf(n.count));
  }

  lemma VmUpdate(vms: seq<Vm>, i: nat, v: Vm)
    requires i < |vms|
    ensures ActiveVms(vms[i := v]) == ActiveVms(vms) - (if Active(vms[i]) then 1 else 0) + (if Active(v) then 1 else 0)
  {
    var f := if Active(v) then 1 else 0;
    assert Flags(vms[i := v]) == Flags(vms)[i := f];
    SumUpdate(Flags(vms), i, f);
  }

  // ---- operations ------------------------------------------------------------------------------

  function Bump(m: Manager, n: Option<nat>, up: bool): Manager
    requires n.Some? ==> n.value < |m.nodes|
  {
    if n.None? then m
    else var node := m.nodes[n.value];
         m.(nodes := m.nodes[n.value := node.(count := if up then Inc(node.count) else Dec(node.count))])
  }

  function SetState(m: Manager, i: nat, s: VmState): Manager
    requires i < |m.vms|
  {
    m.(vms := m.vms[i := m.vms[i].(state := s)])
  }

  function Create(m: Manager): Manager {
    m.(vms := [Vm(m.nextId, CREATED, m.local)] + m.vms, known := Inc(m.known), nextId := Inc(m.nextId))
  }

  function Startable(v: Vm): bool { v.state == CREATED || v.state == STOPPED }

  function Start(m: Manager, i: nat): Manager
    requires i < |m.vms| && (m.local.Some? ==> m.local.value < |m.nodes|)
  {
    if !Startable(m.vms[i]) then m
    else Bump(SetState(m, i, RUNNING).(running := Inc(m.running)), m.local, true)
  }

  function Stop(m: Manager, i: nat): Manager
    requires i < |m.vms| && (m.local.Some? ==> m.local.value < |m.nodes|)
  {
    if !Active(m.vms[i]) then m
    else Bump(SetState(m, i, STOPPED).(running := Dec(m.running)), m.local, false)
  }

  function ForceStop(m: Manager, i: nat): Manager
    requires i < |m.vms| && (m.local.Some? ==> m.local.value < |m.nodes|)
  {
    if Startable(m.vms[i]) then m
    else if Active(m.vms[i]) then Stop(m, i)
    else SetState(m, i, STOPPED)
  }

  function Destroy(m: Manager, i: nat): Manager
    requires i < |m.vms| && (m.local.Some? ==> m.local.value < |m.nodes|)
  {
    var m' := if Active(m.vms[i]) then ForceStop(m, i) else m;
    m'.(vms := m'.vms[..i] + m'.vms[i + 1..], known := Dec(m'.known))
  }

  function Pause(m: Manager, i: nat): Manager
    requires i < |m.vms|
  {
    if m.vms[i].state == RUNNING then SetState(m, i, PAUSED) else m
  }

  function Resume(m: Manager, i: nat): Manager
    requires i < |m.vms|
  {
    if m.vms[i].state == PAUSED then SetState(m, i, RUNNING) else m
  }

  function Restart(m: Manager, i: nat): Manager
    requires i < |m.vms| && (m.local.Some? ==> m.local.value < |m.nodes|)
  {
    var m' := Stop(m, i);
    Start(if Active(m.vms[i]) then m' else ForceStop(m', i), i)
  }

  function Migrate(m: Manager, i: nat, target: nat): Manager
    requires WellFormed(m) && i < |m.vms| && target < |m.nodes|
  {
    if !Active(m.vms[i]) || m.vms[i].host == Some(target) then m
    else var left := Bump(m, m.vms[i].host, false);
         Bump(left.(vms := m.vms[i := m.vms[i].(host := Some(target))]), Some(target), true)
  }

  // ---- rebalancing -----------------------------------------------------------------------------

  /** The first online node with the greatest count, if any has a VM: the choice of the first
      scan of scheduler_rebalance over the first k nodes. */
  ghost predicate Busiest(nodes: seq<Node>, k: nat, r: Option<nat>)
    requires k <= |nodes|
  {
    match r
    case None => forall j :: 0 <= j < k && nodes[j].online ==> nodes[j].count == 0
    case Some(i) =>
      && i < k && nodes[i].online && nodes[i].count > 0
      && (forall j :: 0 <= j < k && nodes[j].online ==> nodes[j].count <= nodes[i].count)
      && (forall j :: 0 <= j < i && nodes[j].online ==> nodes[j].count < nodes[i].count)
  }

  /** The first online node with the least count, if any count is below the largest 32-bit value. */
  ghost predicate Idlest(nodes: seq<Node>, k: nat, r: Option<nat>)
    requires k <= |nodes|
  {
    match r
    case None => forall j :: 0 <= j < k && nodes[j].online ==> nodes[j].count >= U32 - 1
    case Some(i) =>
      && i < k && nodes[i].online && nodes[i].count < U32 - 1
      && (forall j :: 0 <= j < k && nodes[j].online ==> nodes[j].count >= nodes[i].count)
      && (forall j :: 0 <= j < i && nodes[j].online ==> nodes[j].count > nodes[i].count)
  }

  /** The first VM hosted on node n that can migrate. */
  ghost predicate FirstMovable(vms: seq<Vm>, n: nat, k: nat, r: Option<nat>)
    requires k <= |vms|
  {
    match r
    case None => forall j :: 0 <= j < k ==> !Movable(vms[j], n)
    case Some(i) => i < k && Movable(vms[i], n) && forall j :: 0 <= j < i ==> !Movable(vms[j], n)
  }

  predicate Movable(v: Vm, n: nat) { v.host == Some(n) && Active(v) }

  /** The test for imbalance, in 32-bit arithmetic. */
  predicate Imbalanced(most: nat, least: nat) { most > (least + 2) % U32 }

  /** What one call of scheduler_rebalance does: vm is the VM it picks, if any. */
  ghost predicate Rebalances(m: Manager, m': Manager, vm: Option<nat>, from: Option<nat>, to: Option<nat>)
    requires WellFormed(m)
  {
    && Busiest(m.nodes, |m.nodes|, from) && Idlest(m.nodes, |m.nodes|, to)
    && if from.Some? && to.Some? && Imbalanced(m.nodes[from.value].count, m.nodes[to.value].count)
       then && FirstMovable(m.vms, from.value, |m.vms|, vm)
            && m' == (if vm.Some? then Migrate(m, vm.value, to.value) else m)
       else vm.None? && m' == m
  }
}
