/** Whole runs of lifecycle operations, migrations and rebalancing: the counters agree, and
    rebalancing converges. */
module VmLaws {
  import opened Vms

  datatype Op =
    | CreateVm
    | DestroyVm(i: nat)
    | StartVm(i: nat)
    | StopVm(i: nat)
    | ForceStopVm(i: nat)
    | PauseVm(i: nat)
    | ResumeVm(i: nat)
    | RestartVm(i: nat)
    | MigrateVm(i: nat, target: nat)
    | Rebalance
    | NodeState(n: nat, up: bool)

  /** One step of the system. NodeState is a node joining or leaving the online set. */
  ghost predicate Step(m: Manager, op: Op, m': Manager)
    requires WellFormed(m)
  {
    match op
    case CreateVm => m' == Create(m)
    case DestroyVm(i) => i < |m.vms| && m' == Destroy(m, i)
    case StartVm(i) => i < |m.vms| && m' == Start(m, i)
    case StopVm(i) => i < |m.vms| && m' == Stop(m, i)
    case ForceStopVm(i) => i < |m.vms| && m' == ForceStop(m, i)
    case PauseVm(i) => i < |m.vms| && m' == Pause(m, i)
    case ResumeVm(i) => i < |m.vms| && m' == Resume(m, i)
    case RestartVm(i) => i < |m.vms| && m' == Restart(m, i)
    case MigrateVm(i, t) => i < |m.vms| && t < |m.nodes| && m' == Migrate(m, i, t)
    case Rebalance => exists vm, from, to :: Rebalances(m, m', vm, from, to)
    case NodeState(n, up) => n < |m.nodes| && m' == m.(nodes := m.nodes[n := m.nodes[n].(online := up)])
  }

  ghost predicate Initial(m: Manager) {
    && WellFormed(m) && m.vms == [] && m.running == 0 && m.known == 0
    && forall i :: 0 <= i < |m.nodes| ==> m.nodes[i].count == 0
  }

  ghost predicate IsRun(ms: seq<Manager>, ops: seq<Op>) {
    && |ms| == |ops| + 1
    && Initial(ms[0])
    && forall i :: 0 <= i < |ops| ==> WellFormed(ms[i]) && Step(ms[i], ops[i], ms[i + 1])
  }

  /** What every step keeps. */
  ghost predicate Counted(m: Manager) {
    && m.running == ActiveVms(m.vms) % U32
    && m.known == |m.vms| % U32
    && (m.local.Some? ==> Total(m.nodes) % U32 == m.running)
  }

  ghost predicate Kept(m: Manager, m': Manager) {
    WellFormed(m') && Counted(m') && m'.local == m.local && |m'.nodes| == |m.nodes|
  }

  lemma BumpTotal(m: Manager, n: Option<nat>, up: bool)
    requires WellFormed(m) && (n.Some? ==> n.value < |m.nodes|)
    ensures var t, t' := Total(m.nodes), Total(Bump(m, n, up).nodes);
            t' % U32 == (if n.None? then t else if up then t + 1 else t - 1) % U32
    ensures WellFormed(Bump(m, n, up))
  {
    if n.Some? {
      var c := m.nodes[n.value].count;
      NodeUpdate(m.nodes, n.value, m.nodes[n.value].(count := if up then Inc(c) else Dec(c)));
    }
  }

  lemma SetStateKeeps(m: Manager, i: nat, s: VmState)
    requires WellFormed(m) && i < |m.vms|
    ensures WellFormed(SetState(m, i, s))
    ensures var v := m.vms[i].(state := s);
            ActiveVms(SetState(m, i, s).vms) == ActiveVms(m.vms) - (if Active(m.vms[i]) then 1 else 0) + (if Active(v) then 1 else 0)
  {
    VmUpdate(m.vms, i, m.vms[i].(state := s));
  }

  lemma CreateKeeps(m: Manager)
    requires WellFormed(m) && Counted(m)
    ensures Kept(m, Create(m))
  {
    var m' := Create(m);
    assert Flags(m'.vms) == [0] + Flags(m.vms);
    SumSplit([0], Flags(m.vms));
    forall i | 0 <= i < |m'.vms| ensures HostOk(m', m'.vms[i]) {
      if i > 0 {
        assert m'.vms[i] == m.vms[i - 1] && HostOk(m, m.vms[i - 1]);
      }
    }
  }

  lemma StartKeeps(m: Manager, i: nat)
    requires WellFormed(m) && Counted(m) && i < |m.vms|
    ensures Kept(m, Start(m, i))
  {
    hide ActiveVms, Total;
    SetStateKeeps(m, i, RUNNING);
    BumpTotal(SetState(m, i, RUNNING).(running := Inc(m.running)), m.local, true);
  }

  lemma StopKeeps(m: Manager, i: nat)
    requires WellFormed(m) && Counted(m) && i < |m.vms|
    ensures Kept(m, Stop(m, i))
  {
    hide ActiveVms, Total;
    SetStateKeeps(m, i, STOPPED);
    BumpTotal(SetState(m, i, STOPPED).(running := Dec(m.running)), m.local, false);
  }

  lemma ForceStopKeeps(m: Manager, i: nat)
    requires WellFormed(m) && Counted(m) && i < |m.vms|
    ensures Kept(m, ForceStop(m, i))
  {
    hide ActiveVms, Total;
    SetStateKeeps(m, i, STOPPED);
    StopKeeps(m, i);
  }

  lemma DestroyKeeps(m: Manager, i: nat)
    requires WellFormed(m) && Counted(m) && i < |m.vms|
    ensures Kept(m, Destroy(m, i))
  {
    hide ActiveVms, Total, Counted;
    ForceStopKeeps(m, i);
    var s := if Active(m.vms[i]) then ForceStop(m, i) else m;
    assert !Active(s.vms[i]);
    DropKeeps(s, i);
  }

  lemma DropKeeps(m: Manager, i: nat)
    requires WellFormed(m) && Counted(m) && i < |m.vms| && !Active(m.vms[i])
    ensures Kept(m, m.(vms := m.vms[..i] + m.vms[i + 1..], known := Dec(m.known)))
  {
    hide Total, Sum;
    var vms := m.vms[..i] + m.vms[i + 1..];
    assert Flags(vms) == Flags(m.vms)[..i] + Flags(m.vms)[i + 1..];
    SumDrop(Flags(m.vms), i);
    assert forall j :: 0 <= j < |vms| ==> vms[j] == m.vms[if j < i then j else j + 1];
  }

  lemma StateKeeps(m: Manager, i: nat)
    requires WellFormed(m) && Counted(m) && i < |m.vms|
    ensures Kept(m, Pause(m, i)) && Kept(m, Resume(m, i))
  {
    hide ActiveVms, Total;
    SetStateKeeps(m, i, PAUSED);
    SetStateKeeps(m, i, RUNNING);
  }

  /** A restart leaves the VM running whatever state it was in. */
  lemma RestartKeeps(m: Manager, i: nat)
    requires WellFormed(m) && Counted(m) && i < |m.vms|
    ensures Kept(m, Restart(m, i)) && Restart(m, i).vms[i].state == RUNNING
  {
    hide ActiveVms, Total;
    StopKeeps(m, i);
    var m' := Stop(m, i);
    ForceStopKeeps(m', i);
    var s := if Active(m.vms[i]) then m' else ForceStop(m', i);
    StartKeeps(s, i);
  }

  /** A migration moves one unit of count and conserves the total modulo 2^32. */
  lemma MigrateKeeps(m: Manager, i: nat, t: nat)
    requires WellFormed(m) && Counted(m) && i < |m.vms| && t < |m.nodes| && (m.local.Some? ==> m.vms[i].host.Some?)
    ensures Kept(m, Migrate(m, i, t))
  {
    hide ActiveVms, Total;
    var left := Bump(m, m.vms[i].host, false);
    BumpTotal(m, m.vms[i].host, false);
    var moved := left.(vms := m.vms[i := m.vms[i].(host := Some(t))]);
    BumpTotal(moved, Some(t), true);
    VmUpdate(m.vms, i, m.vms[i].(host := Some(t)));
  }

  /** With a local node, every VM has a host. */
  ghost predicate Hosted(m: Manager) {
    m.local.Some? ==> forall i :: 0 <= i < |m.vms| ==> m.vms[i].host.Some?
  }

  ghost predicate SameHosts(m: Manager, m': Manager) {
    m'.local == m.local && |m'.nodes| == |m.nodes| && |m'.vms| == |m.vms| && forall j :: 0 <= j < |m.vms| ==> m'.vms[j].host == m.vms[j].host
  }

  lemma LifecycleHosts(m: Manager, i: nat)
    requires i < |m.vms| && (m.local.Some? ==> m.local.value < |m.nodes|)
    ensures SameHosts(m, Start(m, i)) && SameHosts(m, Stop(m, i)) && SameHosts(m, ForceStop(m, i))
    ensures SameHosts(m, Pause(m, i)) && SameHosts(m, Resume(m, i))
  {
  }

  lemma MigrateHosts(m: Manager, i: nat, t: nat)
    requires WellFormed(m) && i < |m.vms| && t < |m.nodes|
    ensures var m' := Migrate(m, i, t);
            m'.local == m.local && |m'.vms| == |m.vms| && forall j :: 0 <= j < |m.vms| ==> m'.vms[j].host == m.vms[j].host || m'.vms[j].host == Some(t)
  {
  }

  lemma StepHosted(m: Manager, op: Op, m': Manager)
    requires WellFormed(m) && Hosted(m) && Step(m, op, m')
    ensures Hosted(m')
  {
    hide Start, Stop, ForceStop, Pause, Resume, Migrate, Imbalanced;
    match op
    case StartVm(i) => LifecycleHosts(m, i);
    case StopVm(i) => LifecycleHosts(m, i);
    case ForceStopVm(i) => LifecycleHosts(m, i);
    case PauseVm(i) => LifecycleHosts(m, i);
    case ResumeVm(i) => LifecycleHosts(m, i);
    case RestartVm(i) =>
      LifecycleHosts(m, i);
      LifecycleHosts(Stop(m, i), i);
      LifecycleHosts(ForceStop(Stop(m, i), i), i);
    case DestroyVm(i) =>
      LifecycleHosts(m, i);
    case MigrateVm(i, t) => MigrateHosts(m, i, t);
    case Rebalance =>
      var vm, from, to :| Rebalances(m, m', vm, from, to);
      if vm.Some? {
        MigrateHosts(m, vm.value, to.value);
      }
    case _ =>
  }

  lemma NodeStateKeeps(m: Manager, n: nat, up: bool)
    requires WellFormed(m) && Counted(m) && n < |m.nodes|
    ensures Kept(m, m.(nodes := m.nodes[n := m.nodes[n].(online := up)]))
  {
    NodeUpdate(m.nodes, n, m.nodes[n].(online := up));
  }

  lemma StepKeeps(m: Manager, op: Op, m': Manager)
    requires WellFormed(m) && Counted(m) && Hosted(m) && Step(m, op, m')
    ensures Kept(m, m') && Hosted(m')
  {
    StepHosted(m, op, m');
    hide Counted, WellFormed, Rebalances, Hosted, Create, Destroy, Start, Stop, ForceStop, Pause, Resume, Restart, Migrate;
    match op
    case CreateVm => CreateKeeps(m);
    case DestroyVm(i) => DestroyKeeps(m, i);
    case StartVm(i) => StartKeeps(m, i);
    case StopVm(i) => StopKeeps(m, i);
    case ForceStopVm(i) => ForceStopKeeps(m, i);
    case PauseVm(i) => StateKeeps(m, i);
    case ResumeVm(i) => StateKeeps(m, i);
    case RestartVm(i) => RestartKeeps(m, i);
    case MigrateVm(i, t) => HostKnown(m, i); MigrateKeeps(m, i, t);
    case Rebalance =>
      var vm, from, to :| Rebalances(m, m', vm, from, to);
      RebalanceKeeps(m, m', vm, from, to);
    case NodeState(n, up) => NodeStateKeeps(m, n, up);
  }

  lemma HostKnown(m: Manager, i: nat)
    requires Hosted(m) && i < |m.vms|
    ensures m.local.Some? ==> m.vms[i].host.Some?
  {
  }

  lemma RebalanceKeeps(m: Manager, m': Manager, vm: Option<nat>, from: Option<nat>, to: Option<nat>)
    requires WellFormed(m) && Counted(m) && Hosted(m) && Rebalances(m, m', vm, from, to)
    ensures Kept(m, m')
  {
    hide Counted, Hosted, Migrate;
    if vm.Some? {
      HostKnown(m, vm.value);
      MigrateKeeps(m, vm.value, to.value);
    }
  }

  /** Count conservation over every run: running_count is the number of RUNNING or PAUSED VMs
      and, when the manager has a local node, agrees with the sum of all vm_counts, both
      modulo 2^32. */
  lemma {:induction false} CountsAgree(ms: seq<Manager>, ops: seq<Op>, n: nat)
    requires IsRun(ms, ops) && n < |ms|
    ensures WellFormed(ms[n]) && Counted(ms[n]) && Hosted(ms[n]) && ms[n].local == ms[0].local
  {
    hide Step, WellFormed, Hosted, Counted;
    if n == 0 {
      InitialCounted(ms[0]);
    } else {
      CountsAgree(ms, ops, n - 1);
      StepKeeps(ms[n - 1], ops[n - 1], ms[n]);
    }
  }

  lemma InitialCounted(m: Manager)
    requires Initial(m)
    ensures Counted(m) && Hosted(m)
  {
    ZeroTotal(m.nodes);
  }

  lemma {:induction false} ZeroTotal(nodes: seq<Node>)
    requires forall i :: 0 <= i < |nodes| ==> nodes[i].count == 0
    ensures Total(nodes) == 0
  {
    if nodes != [] {
      assert Counts(nodes)[1..] == Counts(nodes[1..]);
      ZeroTotal(nodes[1..]);
    }
  }

  /** Without a local node the sum of vm_counts is off as soon as one VM has been started. */
  lemma NoLocalNode(m: Manager)
    requires Initial(m) && m.local.None?
    ensures var m1 := Create(m); var m2 := Start(m1, 0);
            IsRun([m, m1, m2], [CreateVm, StartVm(0)]) && Total(m2.nodes) % U32 != m2.running
  {
    ZeroTotal(m.nodes);
    var m1 := Create(m);
    InitialCounted(m);
    CreateKeeps(m);
    assert Step(m, CreateVm, m1) && Step(m1, StartVm(0), Start(m1, 0));
  }

  // ---- convergence -----------------------------------------------------------------------------

  /** Some online node is at most 2^32 - 3: then the imbalance test cannot wrap. */
  ghost predicate Roomy(m: Manager) {
    exists i :: 0 <= i < |m.nodes| && m.nodes[i].online && m.nodes[i].count <= U32 - 3
  }

  /** The effect of a rebalancing call that picks a VM. */
  lemma RebalanceMoves(m: Manager, m': Manager, vm: nat, from: nat, to: nat)
    requires WellFormed(m) && Rebalances(m, m', Some(vm), Some(from), Some(to)) && from != to
    ensures var a, b := m.nodes[from].count, m.nodes[to].count;
            && m'.nodes == m.nodes[from := m.nodes[from].(count := a - 1)][to := m.nodes[to].(count := b + 1)]
            && Squares(m'.nodes) == Squares(m.nodes) - 2 * (a - b) + 2
            && Total(m'.nodes) == Total(m.nodes)
  {
    hide Total, Squares, WellFormed;
    var a, b := m.nodes[from].count, m.nodes[to].count;
    var x, y := m.nodes[from].(count := a - 1), m.nodes[to].(count := b + 1);
    assert m'.nodes == m.nodes[from := x][to := y];
    NodeUpdate(m.nodes, from, x);
    NodeUpdate(m.nodes[from := x], to, y);
    SquareSteps(a, b);
  }

  lemma SquareSteps(a: int, b: int)
    ensures SquareOf(a - 1) - SquareOf(a) + SquareOf(b + 1) - SquareOf(b) == 2 - 2 * (a - b)
  {
  }

  /** A call that picks a VM strictly decreases the sum of squares exactly when some online node
      has a count of at most 2^32 - 3, and then by at least 4; it always conserves the total. */
  lemma RebalanceDecreases(m: Manager, m': Manager, vm: Option<nat>, from: Option<nat>, to: Option<nat>)
    requires WellFormed(m) && Rebalances(m, m', vm, from, to)
    ensures Total(m'.nodes) == Total(m.nodes)
    ensures vm.None? ==> m' == m
    ensures vm.Some? && Roomy(m) ==> Squares(m'.nodes) + 4 <= Squares(m.nodes)
    ensures vm.Some? && !Roomy(m) ==> Squares(m'.nodes) == Squares(m.nodes)
    ensures Roomy(m) ==> Roomy(m')
  {
    hide Total, Squares, Migrate;
    if vm.Some? {
      if from == to {
        assert m.vms[vm.value].host == Some(to.value);
        SamePlace(m, vm.value, to.value);
      } else {
        RebalanceMoves(m, m', vm.value, from.value, to.value);
        assert m'.nodes[to.value].count == m.nodes[to.value].count + 1 && m'.nodes[to.value].online;
      }
    }
  }

  lemma SamePlace(m: Manager, i: nat, t: nat)
    requires WellFormed(m) && i < |m.vms| && t < |m.nodes| && m.vms[i].host == Some(t)
    ensures Migrate(m, i, t) == m
  {
  }

  /** Repeated calls of scheduler_rebalance: ms are the states, moved says which calls picked a VM. */
  ghost predicate Rebalancing(ms: seq<Manager>, moved: seq<bool>) {
    && |ms| == |moved| + 1
    && forall i :: 0 <= i < |moved| ==> WellFormed(ms[i]) && Call(ms[i], ms[i + 1], moved[i])
  }

  ghost predicate Call(m: Manager, m': Manager, moved: bool)
    requires WellFormed(m)
  {
    exists vm, from, to :: Rebalances(m, m', vm, from, to) && moved == vm.Some?
  }

  function Moves(moved: seq<bool>): nat {
    if moved == [] then 0 else Moves(moved[..|moved| - 1]) + (if moved[|moved| - 1] then 1 else 0)
  }

  /** Repeated calls migrate at most a quarter as often as the initial sum of squares, keep the
      total, and never come back to an earlier distribution once a VM has moved. */
  lemma {:induction false} RebalancingConverges(ms: seq<Manager>, moved: seq<bool>)
    requires Rebalancing(ms, moved) && Roomy(ms[0])
    ensures 4 * Moves(moved) + Squares(ms[|moved|].nodes) <= Squares(ms[0].nodes)
    ensures Total(ms[|moved|].nodes) == Total(ms[0].nodes) && Roomy(ms[|moved|])
    ensures 4 * Moves(moved) <= Squares(ms[0].nodes)
    ensures Moves(moved) > 0 ==> ms[|moved|].nodes != ms[0].nodes
  {
    hide Rebalances, WellFormed, Squares, Total, Roomy;
    var n := |moved|;
    SquaresPositive(ms[n].nodes);
    if n > 0 {
      assert Rebalancing(ms[..n], moved[..n - 1]);
      RebalancingConverges(ms[..n], moved[..n - 1]);
      var vm, from, to :| Rebalances(ms[n - 1], ms[n], vm, from, to) && moved[n - 1] == vm.Some?;
      RebalanceDecreases(ms[n - 1], ms[n], vm, from, to);
    }
  }

  lemma SquaresPositive(nodes: seq<Node>)
    ensures Squares(nodes) >= 0
  {
    forall i | 0 <= i < |nodes| ensures Squared(nodes)[i] >= 0 {
      var c := nodes[i].count;
      assert SquareOf(c) >= 0;
    }
    SumBounds(Squared(nodes));
  }

  /** Outside that condition rebalancing can go back and forth for ever, even where all
      counters agree: two online nodes at 2^32 - 1 and 2^32 - 2 exchange their counts, and a
      second call restores them. */
  lemma RebalancingPingPong(v: Vm)
    requires v.host == Some(0) && v.state == RUNNING
    ensures var a, b, c := Node(true, U32 - 1), Node(true, U32 - 2), Node(false, 4);
            var m := Manager([v], [a, b, c], Some(0), 1, 1, 1);
            var m' := Manager([v.(host := Some(1))], [b, a, c], Some(0), 1, 1, 1);
            && WellFormed(m) && WellFormed(m') && Counted(m) && Hosted(m)
            && Rebalances(m, m', Some(0), Some(0), Some(1)) && Rebalances(m', m, Some(0), Some(1), Some(0))
  {
    var a, b, c := Node(true, U32 - 1), Node(true, U32 - 2), Node(false, 4);
    var m := Manager([v], [a, b, c], Some(0), 1, 1, 1);
    var m' := Manager([v.(host := Some(1))], [b, a, c], Some(0), 1, 1, 1);
    assert Migrate(m, 0, 1) == m';
    assert Migrate(m', 0, 0) == m;
    PingPongCounted(v, a, b, c);
  }

  lemma PingPongCounted(v: Vm, a: Node, b: Node, c: Node)
    requires Active(v) && a.count == U32 - 1 && b.count == U32 - 2 && c.count == 4
    ensures ActiveVms([v]) == 1 && Total([a, b, c]) % U32 == 1
  {
    assert Flags([v]) == [1] && Sum([1]) == 1 + Sum([]);
    assert Counts([a, b, c]) == [U32 - 1, U32 - 2, 4];
    calc {
      Sum([U32 - 1, U32 - 2, 4]);
      { assert [U32 - 1, U32 - 2, 4][1..] == [U32 - 2, 4]; }
      U32 - 1 + Sum([U32 - 2, 4]);
      { assert [U32 - 2, 4][1..] == [4]; }
      U32 - 1 + U32 - 2 + Sum([4]);
      U32 - 1 + U32 - 2 + 4;
    }
  }
}
