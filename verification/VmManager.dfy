/** The VM manager and the rebalancer as the program runs them. Each method is one call of
    src/cluster/vm.c or src/cluster/scheduler.c. */
module VmManager {
  import opened Vms
  import VmLaws
  import VmRules

  class VmManager {
    var vms: seq<Vm>
    var nodes: seq<Node>
    const local: Option<nat>
    var running: nat
    var known: nat
    var nextId: nat
    var triggered: nat

    ghost function State(): Manager
      reads this
    {
      Manager(vms, nodes, local, running, known, nextId)
    }

    ghost predicate Valid()
      reads this
    {
      WellFormed(State()) && VmLaws.Counted(State()) && VmLaws.Hosted(State())
    }

    /** vm_manager_init in a cluster whose nodes run nothing yet. */
    constructor (online: seq<bool>, local: Option<nat>)
      requires local.Some? ==> local.value < |online|
      ensures Valid() && VmLaws.Initial(State()) && this.local == local && |nodes| == |online| && triggered == 0
      ensures forall i :: 0 <= i < |online| ==> nodes[i].online == online[i]
    {
      this.local := local;
      vms, running, known, nextId, triggered := [], 0, 0, 1, 0;
      nodes := seq(|online|, i requires 0 <= i < |online| => Node(online[i], 0));
      new;
      VmLaws.InitialCounted(State());
    }

    method AdjustLocal(up: bool)
      requires local.Some? ==> local.value < |nodes|
      modifies `nodes
      ensures State() == Bump(old(State()), local, up)
    {
      if local.Some? {
        var node := nodes[local.value];
        nodes := nodes[local.value := node.(count := if up then Inc(node.count) else Dec(node.count))];
      }
    }

    method SetVmState(i: nat, s: VmState)
      requires i < |vms|
      modifies `vms
      ensures State() == SetState(old(State()), i, s)
    {
      vms := vms[i := vms[i].(state := s)];
    }

    /** virt_vm_create */
    method VmCreate()
      requires Valid()
      modifies this
      ensures Valid() && State() == Create(old(State())) && triggered == old(triggered)
    {
      VmLaws.StepKeeps(State(), VmLaws.CreateVm, Create(State()));
      vms := [Vm(nextId, CREATED, local)] + vms;
      nextId := Inc(nextId);
      known := Inc(known);
    }

    /** virt_vm_destroy */
    method VmDestroy(i: nat)
      requires Valid() && i < |vms|
      modifies this
      ensures Valid() && State() == Destroy(old(State()), i) && triggered == old(triggered)
    {
      hide VmLaws.Counted, VmLaws.Hosted;
      VmLaws.StepKeeps(State(), VmLaws.DestroyVm(i), Destroy(State(), i));
      if Active(vms[i]) {
        VmForceStop(i);
      }
      vms := vms[..i] + vms[i + 1..];
      known := Dec(known);
    }

    /** virt_vm_start */
    method VmStart(i: nat) returns (ok: bool)
      requires Valid() && i < |vms|
      modifies this
      ensures Valid() && State() == Start(old(State()), i) && triggered == old(triggered)
      ensures ok <==> old(vms[i].state == CREATED || vms[i].state == STOPPED)
      ensures ok ==> VmRules.OnlyState(old(vms), vms, i, RUNNING) && VmRules.Moved(old(nodes), nodes, local, 1) && running == (old(running) + 1) % U32
    {
      hide VmLaws.Counted, VmLaws.Hosted;
      VmLaws.StepKeeps(State(), VmLaws.StartVm(i), Start(State(), i));
      VmRules.StartRule(State(), i);
      if vms[i].state != CREATED && vms[i].state != STOPPED {
        return false;
      }
      SetVmState(i, STARTING);
      SetVmState(i, RUNNING);
      running := Inc(running);
      AdjustLocal(true);
      assert vms == old(vms)[i := old(vms)[i].(state := RUNNING)];
      ok := true;
    }

    /** virt_vm_stop */
    method VmStop(i: nat) returns (ok: bool)
      requires Valid() && i < |vms|
      modifies this
      ensures Valid() && State() == Stop(old(State()), i) && triggered == old(triggered)
      ensures ok <==> old(vms[i].state == RUNNING || vms[i].state == PAUSED)
      ensures ok ==> VmRules.OnlyState(old(vms), vms, i, STOPPED) && VmRules.Moved(old(nodes), nodes, local, -1) && running == (old(running) + U32 - 1) % U32
    {
      hide VmLaws.Counted, VmLaws.Hosted;
      VmLaws.StepKeeps(State(), VmLaws.StopVm(i), Stop(State(), i));
      VmRules.StopRule(State(), i);
      if vms[i].state != RUNNING && vms[i].state != PAUSED {
        return false;
      }
      SetVmState(i, STOPPING);
      SetVmState(i, STOPPED);
      running := Dec(running);
      AdjustLocal(false);
      assert vms == old(vms)[i := old(vms)[i].(state := STOPPED)];
      ok := true;
    }

    /** virt_vm_force_stop */
    method VmForceStop(i: nat)
      requires Valid() && i < |vms|
      modifies this
      ensures Valid() && State() == ForceStop(old(State()), i) && triggered == old(triggered)
      ensures old(vms[i].state) != CREATED ==> vms[i].state == STOPPED
    {
      hide VmLaws.Counted, VmLaws.Hosted;
      VmLaws.StepKeeps(State(), VmLaws.ForceStopVm(i), ForceStop(State(), i));
      if vms[i].state == STOPPED || vms[i].state == CREATED {
        return;
      }
      if vms[i].state == RUNNING || vms[i].state == PAUSED {
        running := Dec(running);
        AdjustLocal(false);
      }
      SetVmState(i, STOPPED);
    }

    /** virt_vm_pause */
    method VmPause(i: nat) returns (ok: bool)
      requires Valid() && i < |vms|
      modifies this
      ensures Valid() && State() == Pause(old(State()), i) && triggered == old(triggered)
      ensures ok <==> old(vms[i].state == RUNNING)
      ensures if ok then VmRules.OnlyState(old(vms), vms, i, PAUSED) && nodes == old(nodes) && running == old(running) else State() == old(State())
    {
      hide VmLaws.Counted, VmLaws.Hosted;
      VmLaws.StepKeeps(State(), VmLaws.PauseVm(i), Pause(State(), i));
      if vms[i].state != RUNNING {
        return false;
      }
      SetVmState(i, PAUSED);
      ok := true;
    }

    /** virt_vm_resume */
    method VmResume(i: nat) returns (ok: bool)
      requires Valid() && i < |vms|
      modifies this
      ensures Valid() && State() == Resume(old(State()), i) && triggered == old(triggered)
      ensures ok <==> old(vms[i].state == PAUSED)
      ensures if ok then VmRules.OnlyState(old(vms), vms, i, RUNNING) && nodes == old(nodes) && running == old(running) else State() == old(State())
    {
      hide VmLaws.Counted, VmLaws.Hosted;
      VmLaws.StepKeeps(State(), VmLaws.ResumeVm(i), Resume(State(), i));
      if vms[i].state != PAUSED {
        return false;
      }
      SetVmState(i, RUNNING);
      ok := true;
    }

    /** virt_vm_restart: succeeds from every state. */
    method VmRestart(i: nat) returns (ok: bool)
      requires Valid() && i < |vms|
      modifies this
      ensures Valid() && State() == Restart(old(State()), i) && triggered == old(triggered)
      ensures ok && vms[i].state == RUNNING
    {
      hide VmLaws.Counted, VmLaws.Hosted;
      VmLaws.RestartKeeps(State(), i);
      var stopped := VmStop(i);
      if !stopped {
        VmForceStop(i);
      }
      ok := VmStart(i);
    }

    /** virt_vm_migrate */
    method VmMigrate(i: nat, target: nat) returns (ok: bool)
      requires Valid() && i < |vms| && target < |nodes|
      modifies this
      ensures Valid() && State() == Migrate(old(State()), i, target) && triggered == old(triggered)
      ensures ok <==> old(vms[i].state == RUNNING || vms[i].state == PAUSED)
      ensures ok ==> vms[i] == old(vms)[i].(host := Some(target)) && forall j :: 0 <= j < |vms| && j != i ==> vms[j] == old(vms)[j]
    {
      hide VmLaws.Counted, VmLaws.Hosted;
      VmLaws.StepKeeps(State(), VmLaws.MigrateVm(i, target), Migrate(State(), i, target));
      VmRules.MigrateRule(State(), i, target);
      if !Active(vms[i]) {
        return false;
      }
      if vms[i].host == Some(target) {
        return true;
      }
      var prev := vms[i].state;
      SetVmState(i, MIGRATING);
      if vms[i].host.Some? {
        var h := vms[i].host.value;
        nodes := nodes[h := nodes[h].(count := Dec(nodes[h].count))];
      }
      vms := vms[i := vms[i].(host := Some(target))];
      nodes := nodes[target := nodes[target].(count := Inc(nodes[target].count))];
      SetVmState(i, prev);
      assert vms == old(vms)[i := old(vms)[i].(host := Some(target))];
      ok := true;
    }

    /** The scan of scheduler_rebalance for the busiest and the idlest online node. */
    method FindExtremes() returns (over: Option<nat>, under: Option<nat>, most: nat, least: nat)
      requires WellFormed(State())
      ensures Busiest(nodes, |nodes|, over) && Idlest(nodes, |nodes|, under)
      ensures over.Some? ==> most == nodes[over.value].count
      ensures under.Some? ==> least == nodes[under.value].count
    {
      over, under, most, least := None, None, 0, U32 - 1;
      for k := 0 to |nodes|
        invariant Busiest(nodes, k, over) && Idlest(nodes, k, under)
        invariant most == if over.Some? then nodes[over.value].count else 0
        invariant least == if under.Some? then nodes[under.value].count else U32 - 1
      {
        if nodes[k].online {
          if nodes[k].count > most {
            most, over := nodes[k].count, Some(k);
          }
          if nodes[k].count < least {
            least, under := nodes[k].count, Some(k);
          }
        }
      }
    }

    /** The scan for a VM to move. */
    method FindMovable(n: nat) returns (vm: Option<nat>)
      ensures FirstMovable(vms, n, |vms|, vm)
    {
      for k := 0 to |vms|
        invariant FirstMovable(vms, n, k, None)
      {
        if vms[k].host == Some(n) && Active(vms[k]) {
          return Some(k);
        }
      }
      return None;
    }

    /** scheduler_rebalance. The counter of triggered migrations moves with the picked VM. */
    method RebalanceNodes() returns (vm: Option<nat>, ghost from: Option<nat>, ghost to: Option<nat>)
      requires Valid()
      modifies this
      ensures Valid() && Rebalances(old(State()), State(), vm, from, to)
      ensures triggered == old(triggered) + (if vm.Some? then 1 else 0)
      ensures old(VmLaws.Roomy(State())) && vm.Some? ==> Squares(nodes) + 4 <= Squares(old(nodes))
      ensures Total(nodes) == Total(old(nodes))
      ensures vm.Some? <==>
                && from.Some? && to.Some? && old(nodes)[from.value].count > (old(nodes)[to.value].count + 2) % U32
                && exists i :: 0 <= i < |old(vms)| && old(vms)[i].host == from && (old(vms)[i].state == RUNNING || old(vms)[i].state == PAUSED)
      ensures vm.Some? ==> vms[vm.value].host == to
    {
      hide VmLaws.Counted, VmLaws.Hosted, Squares, Total, VmLaws.Roomy, Migrate;
      ghost var m := State();
      var over, under, most, least := FindExtremes();
      vm, from, to := None, over, under;
      if over.Some? && under.Some? && Imbalanced(most, least) {
        vm := FindMovable(over.value);
        if vm.Some? {
          var _ := VmMigrate(vm.value, under.value);
          triggered := triggered + 1;
        }
      }
      VmLaws.RebalanceDecreases(m, State(), vm, from, to);
      VmRules.RebalanceRule(m, State(), vm, from, to);
    }
  }
}
