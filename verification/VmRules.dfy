/** What each lifecycle operation of src/cluster/vm.c does to the VMs, the counters and the nodes,
    said outright. */
module VmRules {
  import opened Vms

  /** The nodes after the count of one, if any, moved by d modulo 2^32. */
  ghost predicate Moved(nodes: seq<Node>, nodes': seq<Node>, n: Option<nat>, d: int) {
    && |nodes'| == |nodes|
    && forall j :: 0 <= j < |nodes| ==>
         && nodes'[j].online == nodes[j].online
         && nodes'[j].count == if n == Some(j) then (nodes[j].count + d) % U32 else nodes[j].count
  }

  /** Only VM i changed, and only its state. */
  ghost predicate OnlyState(vms: seq<Vm>, vms': seq<Vm>, i: nat, s: VmState) {
    && |vms'| == |vms| && i < |vms|
    && vms'[i] == vms[i].(state := s)
    && forall j :: 0 <= j < |vms| && j != i ==> vms'[j] == vms[j]
  }

  /** A change that touches no counter and no node. */
  ghost predicate SameCounts(m: Manager, m': Manager) {
    m' == m.(vms := m'.vms)
  }

  lemma CreateRule(m: Manager)
    requires WellFormed(m)
    ensures var m' := Create(m);
            && m'.vms == [Vm(m.nextId, CREATED, m.local)] + m.vms
            && m'.nextId == (m.nextId + 1) % U32 && m'.known == (m.known + 1) % U32
            && m'.running == m.running && m'.nodes == m.nodes && m'.local == m.local
  {
  }

  /** A created or stopped VM starts and counts on the local node; any other is left alone. */
  lemma StartRule(m: Manager, i: nat)
    requires WellFormed(m) && i < |m.vms|
    ensures var m', startable := Start(m, i), m.vms[i].state == CREATED || m.vms[i].state == STOPPED;
            && (!startable ==> m' == m)
            && (startable ==>
                  && OnlyState(m.vms, m'.vms, i, RUNNING) && m'.running == (m.running + 1) % U32
                  && Moved(m.nodes, m'.nodes, m.local, 1)
                  && m'.known == m.known && m'.nextId == m.nextId && m'.local == m.local)
  {
  }

  /** A running or paused VM stops and leaves the count of the local node, wherever it runs. */
  lemma StopRule(m: Manager, i: nat)
    requires WellFormed(m) && i < |m.vms|
    ensures var m', active := Stop(m, i), m.vms[i].state == RUNNING || m.vms[i].state == PAUSED;
            && (!active ==> m' == m)
            && (active ==>
                  && OnlyState(m.vms, m'.vms, i, STOPPED) && m'.running == (m.running + U32 - 1) % U32
                  && Moved(m.nodes, m'.nodes, m.local, -1)
                  && m'.known == m.known && m'.nextId == m.nextId && m'.local == m.local)
  {
  }

  /** A forced stop does the same for a running or paused VM, and ends every other state but
      CREATED and STOPPED without touching a counter. */
  lemma ForceStopRule(m: Manager, i: nat)
    requires WellFormed(m) && i < |m.vms|
    ensures var m', s := ForceStop(m, i), m.vms[i].state;
            && (s == CREATED || s == STOPPED ==> m' == m)
            && (s == RUNNING || s == PAUSED ==> m' == Stop(m, i))
            && (s != CREATED && s != STOPPED && s != RUNNING && s != PAUSED ==>
                  OnlyState(m.vms, m'.vms, i, STOPPED) && SameCounts(m, m'))
  {
  }

  lemma PauseRule(m: Manager, i: nat)
    requires WellFormed(m) && i < |m.vms|
    ensures var p, r := Pause(m, i), Resume(m, i);
            && (if m.vms[i].state == RUNNING then OnlyState(m.vms, p.vms, i, PAUSED) && SameCounts(m, p) else p == m)
            && (if m.vms[i].state == PAUSED then OnlyState(m.vms, r.vms, i, RUNNING) && SameCounts(m, r) else r == m)
  {
  }

  /** Pausing and resuming undo each other. */
  lemma PauseResume(m: Manager, i: nat)
    requires WellFormed(m) && i < |m.vms|
    ensures m.vms[i].state == RUNNING ==> Resume(Pause(m, i), i) == m
    ensures m.vms[i].state == PAUSED ==> Pause(Resume(m, i), i) == m
  {
    assert m.vms == m.vms[i := m.vms[i]];
  }

  /** Starting a stopped VM and stopping it again restores every counter and node. */
  lemma StartStop(m: Manager, i: nat)
    requires WellFormed(m) && i < |m.vms| && m.vms[i].state == STOPPED
    ensures Stop(Start(m, i), i) == m
  {
    var s := Start(m, i);
    assert s.vms[i := s.vms[i].(state := STOPPED)] == m.vms;
    if m.local.Some? {
      var n := m.local.value;
      var node := s.nodes[n];
      assert s.nodes[n := node.(count := Dec(node.count))] == m.nodes;
    }
  }

  /** A VM leaves the list, stopped first if it was active. */
  lemma DestroyRule(m: Manager, i: nat)
    requires WellFormed(m) && i < |m.vms|
    ensures var m', s := Destroy(m, i), Stop(m, i);
            && |m'.vms| == |m.vms| - 1
            && (forall j :: 0 <= j < |m'.vms| ==> m'.vms[j] == m.vms[if j < i then j else j + 1])
            && m'.known == (m.known + U32 - 1) % U32 && m'.nextId == m.nextId && m'.local == m.local
            && m'.running == s.running && m'.nodes == s.nodes
  {
  }

  /** A running or paused VM moves its host, and one unit of count with it; on its own node or in
      another state it stays. */
  lemma MigrateRule(m: Manager, i: nat, t: nat)
    requires WellFormed(m) && i < |m.vms| && t < |m.nodes|
    ensures var m', v := Migrate(m, i, t), m.vms[i];
            if (v.state == RUNNING || v.state == PAUSED) && v.host != Some(t)
            then && m' == m.(vms := m.vms[i := v.(host := Some(t))], nodes := m'.nodes)
                 && |m'.nodes| == |m.nodes|
                 && forall j :: 0 <= j < |m.nodes| ==>
                      && m'.nodes[j].online == m.nodes[j].online
                      && m'.nodes[j].count == (m.nodes[j].count + (if j == t then 1 else 0) - (if v.host == Some(j) then 1 else 0)) % U32
            else m' == m
  {
  }

  /** Rebalancing moves the first VM found on the busiest node that can move, if and only if that
      node has over two VMs more than the idlest in 32-bit arithmetic and hosts such a VM. */
  lemma RebalanceRule(m: Manager, m': Manager, vm: Option<nat>, from: Option<nat>, to: Option<nat>)
    requires WellFormed(m) && Rebalances(m, m', vm, from, to)
    ensures vm.Some? <==>
              && from.Some? && to.Some? && m.nodes[from.value].count > (m.nodes[to.value].count + 2) % U32
              && exists i :: 0 <= i < |m.vms| && m.vms[i].host == from && (m.vms[i].state == RUNNING || m.vms[i].state == PAUSED)
    ensures vm.Some? ==> vm.value < |m.vms| && m.vms[vm.value].host == from && m' == Migrate(m, vm.value, to.value)
    ensures vm.None? ==> m' == m
  {
    if from.Some? && to.Some? && m.nodes[from.value].count > (m.nodes[to.value].count + 2) % U32 && vm.None? {
      assert forall i :: 0 <= i < |m.vms| ==> !Movable(m.vms[i], from.value);
    }
  }
}
