// The objects of one cluster across its three controllers: the ICSCluster
// (controllers/icscluster_controller.go), its ICSMachines
// (controllers/icsmachine_controller.go, pkg/services/vimmachine.go), their ICSVMs
// (controllers/icsvm_controller.go), and the backend VMs of VmLifecycle. Each
// reconcile of one object is one step; the steps interleave freely.
module DeletionChain {
  import opened Wrappers
  import opened VmLifecycle
  import VmDestroy

  // An ICSMachine, its CAPI Machine and its ICSVM are known by one name.
  type Name = string

  datatype Owner = CapiMachine | TheICSCluster | OtherOwner(string)

  datatype ClusterObject = ClusterObject(finalizer: bool, deleting: bool)

  datatype MachineObject = MachineObject(owners: set<Owner>, finalizer: bool, deleting: bool)

  datatype VmEntry = VmEntry(finalizer: bool, o: VmObject)

  // infraReady: Cluster.Status.InfrastructureReady.
  datatype World = World(cluster: Option<ClusterObject>, infraReady: bool,
                         machines: map<Name, MachineObject>, vms: map<Name, VmEntry>,
                         backends: map<Name, Backend>) {
    function BackendOf(n: Name): Backend {
      if n in backends then backends[n] else Backend(map[], map[])
    }

    function Vm(n: Name): Option<VmEntry> {
      if n in vms then Some(vms[n]) else None
    }

    function SysOf(n: Name): Sys {
      Sys(if n in vms then vms[n].o else NEW_OBJECT, BackendOf(n))
    }
  }

  // ------------------------------------------------------------------ steps

  datatype Action =
    // ICSCluster reconcile: the machines whose owner references were patched; the
    // solely owned machines that were removed, and those that only lost their
    // finalizer; whether every call succeeded.
    | ClusterReconcile(patched: set<Name>, removed: set<Name>, stripped: set<Name>, ok: bool)
    // CAPI copies the ICSCluster's readiness to the Cluster.
    | InfrastructureReady
    // ICSMachine reconcile; gated when it stops before it creates or patches the ICSVM.
    | MachineReconcile(n: Name, gated: bool)
    // ICSVM reconcile; gated when it stops before it reaches the VM.
    | VmReconcile(n: Name, reachable: bool, gated: bool, a: Answers, again: Answers)
    | DeleteCluster
    | NewMachine(n: Name, owners: set<Owner>)
    | AddMachineOwner(n: Name, owner: Owner)
    | DeleteMachine(n: Name)
    | DeleteVm(n: Name)
    | BackendStep(n: Name, e: EnvStep)

  predicate SolelyOwned(m: MachineObject) {
    TheICSCluster in m.owners && |m.owners| == 1
  }

  // setOwnerRefsOnICSMachines
  function WithClusterOwner(machines: map<Name, MachineObject>, patched: set<Name>): map<Name, MachineObject> {
    map n | n in machines ::
      if n in patched then machines[n].(owners := machines[n].owners + {TheICSCluster}) else machines[n]
  }

  function SolelyOwnedNames(machines: map<Name, MachineObject>): set<Name> {
    set n | n in machines && SolelyOwned(machines[n])
  }

  // How the two calls for one machine go: its Update fails; or the Delete after it
  // does; or neither.
  datatype Removal = UpdateFailed | DeleteFailed | Removed

  // The removed machines are gone, the stripped ones have lost their finalizer.
  function AfterRemoval(machines: map<Name, MachineObject>, removed: set<Name>, stripped: set<Name>): map<Name, MachineObject> {
    map n | n in machines && n !in removed ::
      if n in stripped then machines[n].(finalizer := false) else machines[n]
  }

  // The calls for a machine end well. A machine that is being deleted is gone with
  // its finalizer, and its Delete then reports "not found".
  predicate EndsWell(m: MachineObject, call: Removal) {
    call == Removed || (call == DeleteFailed && m.deleting)
  }

  predicate Fails(m: MachineObject, call: Removal) {
    SolelyOwned(m) && !EndsWell(m, call)
  }

  lemma FailsExactly(m: MachineObject, call: Removal)
    ensures Fails(m, call)
            <==> m.owners == {TheICSCluster} && (call == UpdateFailed || (call == DeleteFailed && !m.deleting))
  {
    if SolelyOwned(m) { SolelyOwnedHasOneOwner(m); }
  }

  // What the loop has done to the machines once it has passed these.
  function AfterCalls(passed: seq<Name>, machines: map<Name, MachineObject>, calls: Name -> Removal): map<Name, MachineObject>
    requires forall n :: n in passed ==> n in machines
  {
    if passed == [] then machines
    else
      var n := passed[|passed| - 1];
      var left := AfterCalls(passed[..|passed| - 1], machines, calls);
      if !SolelyOwned(machines[n]) then left
      else if EndsWell(machines[n], calls(n)) then left - {n}
      else left[n := machines[n].(finalizer := false)]
  }

  function CountSolelyOwned(passed: seq<Name>, machines: map<Name, MachineObject>): nat
    requires forall n :: n in passed ==> n in machines
  {
    if passed == [] then 0
    else CountSolelyOwned(passed[..|passed| - 1], machines) + if SolelyOwned(machines[passed[|passed| - 1]]) then 1 else 0
  }

  // The loop of clusterReconciler.reconcileDelete over the listed ICSMachines. It
  // stops at the first Update that fails; its count tells whether any ICSMachine is
  // left.
  method RemoveSolelyOwned(names: seq<Name>, machines: map<Name, MachineObject>, calls: Name -> Removal)
    returns (left: map<Name, MachineObject>, err: bool, waiting: bool, ghost reached: nat)
    requires forall n :: n in names <==> n in machines
    requires forall i, j :: 0 <= i < j < |names| ==> names[i] != names[j]
    ensures reached <= |names| && left == AfterCalls(names[..reached], machines, calls)
    ensures reached < |names| ==> SolelyOwned(machines[names[reached]]) && calls(names[reached]) == UpdateFailed
    ensures forall i :: 0 <= i < reached && SolelyOwned(machines[names[i]]) ==> calls(names[i]) != UpdateFailed
    ensures err <==> exists i :: 0 <= i < |names| && Fails(machines[names[i]], calls(names[i]))
    ensures forall i :: 0 <= i < reached ==> PassedExactly(machines, left, calls, names[i])
    ensures !err ==> left == machines - SolelyOwnedNames(machines) && (waiting <==> left != map[])
  {
    ReachedExactly(names, machines, calls);
    left, err, waiting, reached := machines, false, false, |names|;
    var machineDeletionCount := 0;
    for i := 0 to |names|
      invariant left == AfterCalls(names[..i], machines, calls)
      invariant forall k :: 0 <= k < i && SolelyOwned(machines[names[k]]) ==> calls(names[k]) != UpdateFailed
      invariant machineDeletionCount == CountSolelyOwned(names[..i], machines)
      invariant err <==> exists k :: 0 <= k < i && Fails(machines[names[k]], calls(names[k]))
    {
      var n := names[i];
      assert names[..i + 1][..i] == names[..i];
      if SolelyOwned(machines[n]) {
        machineDeletionCount := machineDeletionCount + 1;
        if calls(n) == UpdateFailed {
          assert Fails(machines[names[i]], calls(names[i]));
          err, reached := true, i;
          return;
        }
        if EndsWell(machines[n], calls(n)) {
          left := left - {n};
        } else {
          assert Fails(machines[names[i]], calls(names[i]));
          left := left[n := machines[n].(finalizer := false)];
          err := true;
        }
      }
    }
    assert names[..|names|] == names;
    if err {
      return;
    }
    AllRemoved(names, machines, calls);
    waiting := |names| - machineDeletionCount > 0;
  }

  // The machines passed that the loop removed.
  function RemovedOf(passed: seq<Name>, machines: map<Name, MachineObject>, calls: Name -> Removal): set<Name> {
    set n | n in passed && n in machines && SolelyOwned(machines[n]) && EndsWell(machines[n], calls(n))
  }

  function StrippedOf(passed: seq<Name>, machines: map<Name, MachineObject>, calls: Name -> Removal): set<Name> {
    set n | n in passed && n in machines && Fails(machines[n], calls(n))
  }

  // Whatever its calls do, the loop takes a step that ClusterReconcile covers.
  lemma {:induction false} AfterCallsIsRemoval(passed: seq<Name>, machines: map<Name, MachineObject>, calls: Name -> Removal)
    requires forall n :: n in passed ==> n in machines
    requires forall i, j :: 0 <= i < j < |passed| ==> passed[i] != passed[j]
    ensures AfterCalls(passed, machines, calls)
            == AfterRemoval(machines, RemovedOf(passed, machines, calls), StrippedOf(passed, machines, calls))
    ensures CountSolelyOwned(passed, machines)
            == |RemovedOf(passed, machines, calls)| + |StrippedOf(passed, machines, calls)|
  {
    if passed != [] {
      var n, rest := passed[|passed| - 1], passed[..|passed| - 1];
      assert passed == rest + [n] && n !in rest;
      AfterCallsIsRemoval(rest, machines, calls);
      PassedNext(rest, n, machines, calls);
      RemovalNext(machines, RemovedOf(rest, machines, calls), StrippedOf(rest, machines, calls), n);
    }
  }

  lemma ReachedExactly(names: seq<Name>, machines: map<Name, MachineObject>, calls: Name -> Removal)
    requires forall n :: n in names ==> n in machines
    requires forall i, j :: 0 <= i < j < |names| ==> names[i] != names[j]
    ensures forall k, i :: 0 <= i < k <= |names| && AsPassed(names, machines, calls, k) ==>
              PassedExactly(machines, AfterCalls(names[..k], machines, calls), calls, names[i])
  {
    forall k, i | 0 <= i < k <= |names| && AsPassed(names, machines, calls, k)
      ensures PassedExactly(machines, AfterCalls(names[..k], machines, calls), calls, names[i])
    {
      AfterCallsIsRemoval(names[..k], machines, calls);
      assert names[..k][i] == names[i] && names[i] in names[..k];
      if SolelyOwned(machines[names[i]]) { SolelyOwnedHasOneOwner(machines[names[i]]); }
    }
  }

  // No Update of the first k machines failed.
  predicate AsPassed(names: seq<Name>, machines: map<Name, MachineObject>, calls: Name -> Removal, k: int)
    requires forall n :: n in names ==> n in machines
  {
    0 <= k <= |names| && forall i :: 0 <= i < k && SolelyOwned(machines[names[i]]) ==> calls(names[i]) != UpdateFailed
  }

  predicate PassedExactly(machines: map<Name, MachineObject>, left: map<Name, MachineObject>, calls: Name -> Removal, n: Name)
    requires n in machines
  {
    if machines[n].owners != {TheICSCluster} then n in left && left[n] == machines[n]
    else if calls(n) == Removed || machines[n].deleting then n !in left
    else n in left && left[n] == machines[n].(finalizer := false)
  }

  lemma PassedNext(rest: seq<Name>, n: Name, machines: map<Name, MachineObject>, calls: Name -> Removal)
    requires n in machines && n !in rest
    ensures RemovedOf(rest + [n], machines, calls)
            == RemovedOf(rest, machines, calls)
               + if SolelyOwned(machines[n]) && EndsWell(machines[n], calls(n)) then {n} else {}
    ensures StrippedOf(rest + [n], machines, calls)
            == StrippedOf(rest, machines, calls) + if Fails(machines[n], calls(n)) then {n} else {}
    ensures n !in RemovedOf(rest, machines, calls) + StrippedOf(rest, machines, calls)
  {
  }

  lemma RemovalNext(machines: map<Name, MachineObject>, removed: set<Name>, stripped: set<Name>, n: Name)
    requires n in machines && n !in removed + stripped
    ensures AfterRemoval(machines, removed + {n}, stripped) == AfterRemoval(machines, removed, stripped) - {n}
    ensures AfterRemoval(machines, removed, stripped + {n})
            == AfterRemoval(machines, removed, stripped)[n := machines[n].(finalizer := false)]
    ensures removed + {} == removed && stripped + {} == stripped
  {
  }

  lemma AllRemoved(names: seq<Name>, machines: map<Name, MachineObject>, calls: Name -> Removal)
    requires forall n :: n in names <==> n in machines
    requires forall i, j :: 0 <= i < j < |names| ==> names[i] != names[j]
    requires forall i :: 0 <= i < |names| ==> !Fails(machines[names[i]], calls(names[i]))
    ensures AfterCalls(names, machines, calls) == machines - SolelyOwnedNames(machines)
    ensures |names| - CountSolelyOwned(names, machines) > 0 <==> AfterCalls(names, machines, calls) != map[]
  {
    AfterCallsIsRemoval(names, machines, calls);
    var gone := RemovedOf(names, machines, calls);
    assert StrippedOf(names, machines, calls) == {};
    LeftCount(names, machines, gone);
    assert AfterRemoval(machines, gone, {}) == machines - gone;
  }

  lemma LeftCount(names: seq<Name>, machines: map<Name, MachineObject>, gone: set<Name>)
    requires forall n :: n in names <==> n in machines
    requires forall i, j :: 0 <= i < j < |names| ==> names[i] != names[j]
    requires forall n :: n in gone <==> n in names && SolelyOwned(machines[n])
    ensures gone == SolelyOwnedNames(machines)
    ensures |names| - |gone| > 0 <==> machines - gone != map[]
  {
    NamesCount(names, machines);
    var left := machines - gone;
    assert machines.Keys == left.Keys + gone;
    if left != map[] {
      assert left.Keys != {};
    }
  }

  lemma NamesCount(names: seq<Name>, machines: map<Name, MachineObject>)
    requires forall n :: n in names <==> n in machines
    requires forall i, j :: 0 <= i < j < |names| ==> names[i] != names[j]
    ensures |names| == |machines|
  {
    if names == [] {
      assert machines == map[];
    } else {
      var n, rest := names[0], machines - {names[0]};
      assert machines.Keys == rest.Keys + {n};
      NamesCount(names[1..], rest);
    }
  }

  ghost predicate Enabled(w: World, act: Action) {
    match act
    case ClusterReconcile(patched, removed, stripped, ok) =>
      w.cluster.Some? && ClusterMayEnd(w, patched, removed, stripped, ok)
    case InfrastructureReady => w.cluster.Some? && w.cluster.value.finalizer
    case MachineReconcile(n, _) => n in w.machines && CapiMachine in w.machines[n].owners
    case VmReconcile(n, reachable, gated, a, again) =>
      && n in w.vms && n in w.machines && CapiMachine in w.machines[n].owners && w.cluster.Some?
      && Faithful(w.SysOf(n), a) && Faithful(ReconcileVM(w.SysOf(n), a).0, again)
    case DeleteCluster => w.cluster.Some?
    case NewMachine(n, _) => n !in w.machines
    case AddMachineOwner(n, _) => n in w.machines
    case DeleteMachine(n) => n in w.machines
    case DeleteVm(n) => n in w.vms
    case BackendStep(n, e) => !e.MarkDeleted? && EnvAllows(w.SysOf(n), e)
  }

  // How far the calls of an ICSCluster reconcile may get.
  ghost predicate ClusterMayEnd(w: World, patched: set<Name>, removed: set<Name>, stripped: set<Name>, ok: bool)
    requires w.cluster.Some?
  {
    var solelyOwned := SolelyOwnedNames(WithClusterOwner(w.machines, patched));
    && patched <= w.machines.Keys && removed !! stripped && removed + stripped <= solelyOwned
    && (forall n :: n in stripped && n in w.machines ==> !w.machines[n].deleting)
    && (ok ==> patched == w.machines.Keys && stripped == {} && removed == solelyOwned)
    && (patched != w.machines.Keys || !w.cluster.value.deleting ==> removed == stripped == {})
  }

  function ClusterReconciled(w: World, patched: set<Name>, removed: set<Name>, stripped: set<Name>, ok: bool): World
    requires w.cluster.Some?
  {
    var machines := WithClusterOwner(w.machines, patched);
    var c := w.cluster.value;
    if !c.deleting then
      w.(machines := machines, cluster := if ok then Some(c.(finalizer := true)) else w.cluster)
    else
      var left := AfterRemoval(machines, removed, stripped);
      // With its last finalizer gone, a deleted object disappears.
      w.(machines := left, cluster := if ok && |left| == 0 then None else w.cluster)
  }

  function MachineReconciled(w: World, n: Name, gated: bool): World
    requires n in w.machines
  {
    var m := w.machines[n];
    if m.deleting then
      if n in w.vms then VmDeleted(w, n)
      else w.(machines := w.machines - {n})
    else if w.cluster.None? then w
    else
      var w1 := w.(machines := w.machines[n := m.(finalizer := true)]);
      if gated || !w.infraReady || n in w.vms then w1
      else w1.(vms := w.vms[n := VmEntry(false, NEW_OBJECT)])
  }

  // The API server's answer to a Delete call.
  function VmDeleted(w: World, n: Name): World
    requires n in w.vms
  {
    if w.vms[n].finalizer
    then w.(vms := w.vms[n := w.vms[n].(o := w.vms[n].o.(deleting := true))])
    else w.(vms := w.vms - {n})
  }

  function WithSys(w: World, n: Name, s: Sys): World {
    w.(vms := w.vms[n := VmEntry(true, s.o)], backends := w.backends[n := s.b])
  }

  function VmReconciled(w: World, n: Name, reachable: bool, gated: bool, a: Answers, again: Answers): World
    requires n in w.vms
  {
    var v := w.vms[n];
    if v.o.deleting then
      if !reachable then w.(vms := w.vms - {n})
      else
        var (s, out) := DestroyVM(w.SysOf(n), a);
        if out == NotFound then w.(vms := w.vms - {n})
        else w.(vms := w.vms[n := v.(o := s.o)], backends := w.backends[n := s.b])
    else if gated || !reachable then w.(vms := w.vms[n := v.(finalizer := true)])
    else WithSys(w, n, ReconcileNormal(w.SysOf(n), a, again).0)
  }

  function Apply(w: World, act: Action): World
    requires Enabled(w, act)
  {
    match act
    case ClusterReconcile(patched, removed, stripped, ok) => ClusterReconciled(w, patched, removed, stripped, ok)
    case InfrastructureReady => w.(infraReady := true)
    case MachineReconcile(n, gated) => MachineReconciled(w, n, gated)
    case VmReconcile(n, reachable, gated, a, again) => VmReconciled(w, n, reachable, gated, a, again)
    case DeleteCluster =>
      w.(cluster := if w.cluster.value.finalizer then Some(w.cluster.value.(deleting := true)) else None)
    case NewMachine(n, owners) => w.(machines := w.machines[n := MachineObject(owners, false, false)])
    case AddMachineOwner(n, owner) =>
      w.(machines := w.machines[n := w.machines[n].(owners := w.machines[n].owners + {owner})])
    case DeleteMachine(n) =>
      if w.machines[n].finalizer then w.(machines := w.machines[n := w.machines[n].(deleting := true)])
      else w.(machines := w.machines - {n})
    case DeleteVm(n) => VmDeleted(w, n)
    case BackendStep(n, e) => w.(backends := w.backends[n := EnvApply(w.SysOf(n), e).b])
  }

  // -------------------------------------------------------------- invariant

  // A backend holds something only for an ICSVM that has its finalizer.
  ghost predicate LifeOk(v: Option<VmEntry>, b: Backend) {
    match v
    case None => Quiet(b)
    case Some(v) => Inv(Sys(v.o, b)) && (!v.finalizer ==> Quiet(b) && v.o == NEW_OBJECT)
  }

  ghost predicate Lives(w: World) {
    forall n :: LifeOk(w.Vm(n), w.BackendOf(n))
  }

  // An ICSVM has an ICSMachine with a finalizer and with an owner besides the
  // ICSCluster, and an ICSCluster with a finalizer.
  predicate Linked(w: World) {
    && (forall n :: n in w.vms ==>
          n in w.machines && CapiMachine in w.machines[n].owners && w.machines[n].finalizer)
    && (w.vms != map[] ==> w.cluster.Some?)
    && (w.infraReady && w.cluster.Some? ==> w.cluster.value.finalizer)
    && (w.vms != map[] ==> w.infraReady)
  }

  const START := World(Some(ClusterObject(false, false)), false, map[], map[], map[])

  lemma LivesAfter(w: World, w': World, n: Name)
    requires Lives(w) && LifeOk(w'.Vm(n), w'.BackendOf(n))
    requires forall k :: k != n ==> w'.Vm(k) == w.Vm(k) && w'.BackendOf(k) == w.BackendOf(k)
    ensures Lives(w')
  {
  }

  lemma DeletedIsOk(v: VmEntry, b: Backend)
    requires LifeOk(Some(v), b)
    ensures if v.finalizer then LifeOk(Some(v.(o := v.o.(deleting := true))), b) else LifeOk(None, b)
  {
  }

  lemma ReconciledIsOk(v: VmEntry, b: Backend, a: Answers, again: Answers)
    requires LifeOk(Some(v), b) && !v.o.deleting
    requires Faithful(Sys(v.o, b), a) && Faithful(ReconcileVM(Sys(v.o, b), a).0, again)
    ensures var s := ReconcileNormal(Sys(v.o, b), a, again).0; LifeOk(Some(VmEntry(true, s.o)), s.b)
  {
    ReconcileNormalKeepsInv(Sys(v.o, b), a, again);
  }

  lemma DestroyedIsOk(v: VmEntry, b: Backend, a: Answers)
    requires LifeOk(Some(v), b) && v.o.deleting && Faithful(Sys(v.o, b), a)
    ensures var (s, out) := DestroyVM(Sys(v.o, b), a);
            if out == NotFound then LifeOk(None, b) else LifeOk(Some(v.(o := s.o)), s.b)
  {
    DestroyVMKeepsInv(Sys(v.o, b), a);
    if DestroyVM(Sys(v.o, b), a).1 == NotFound { VmDestroy.NotFoundMeansGone(Sys(v.o, b), a); }
  }

  lemma SolelyOwnedHasOneOwner(m: MachineObject)
    requires SolelyOwned(m)
    ensures m.owners == {TheICSCluster}
  {
    var others := m.owners - {TheICSCluster};
    assert m.owners == others + {TheICSCluster};
    assert |others| == 0;
  }

  // ICSMachines that the ICSCluster removes or strips never had an ICSVM.
  lemma ClusterKeepsLinked(w: World, patched: set<Name>, removed: set<Name>, stripped: set<Name>, ok: bool)
    requires Linked(w) && Enabled(w, ClusterReconcile(patched, removed, stripped, ok))
    ensures Linked(ClusterReconciled(w, patched, removed, stripped, ok))
  {
    var machines := WithClusterOwner(w.machines, patched);
    forall n | n in w.vms ensures n in machines && n !in removed + stripped {
      if n in removed + stripped { SolelyOwnedHasOneOwner(machines[n]); }
    }
    if w.vms != map[] {
      var n :| n in w.vms;
      assert n in AfterRemoval(machines, removed, stripped);
    }
  }

  lemma StepKeepsLinked(w: World, act: Action)
    requires Linked(w) && Enabled(w, act)
    ensures Linked(Apply(w, act))
  {
    match act
    case ClusterReconcile(patched, removed, stripped, ok) => ClusterKeepsLinked(w, patched, removed, stripped, ok);
    case _ =>
  }

  lemma VmKeepsLives(w: World, n: Name, gated: bool, a: Answers, again: Answers)
    requires Lives(w) && Enabled(w, VmReconcile(n, true, gated, a, again))
    ensures Lives(VmReconciled(w, n, true, gated, a, again))
  {
    var v, b := w.vms[n], w.BackendOf(n);
    assert LifeOk(w.Vm(n), b);
    if v.o.deleting {
      DestroyedIsOk(v, b, a);
    } else if !gated {
      ReconciledIsOk(v, b, a, again);
    }
    LivesAfter(w, VmReconciled(w, n, true, gated, a, again), n);
  }

  lemma BackendKeepsLives(w: World, n: Name, e: EnvStep)
    requires Lives(w) && Enabled(w, BackendStep(n, e))
    ensures Lives(Apply(w, BackendStep(n, e)))
  {
    var b := w.BackendOf(n);
    assert LifeOk(w.Vm(n), b);
    if n !in w.vms || !w.vms[n].finalizer {
      QuietStays(w.SysOf(n).o, b, e);
    } else {
      EnvKeepsInv(w.SysOf(n), e);
      LivesAfter(w, Apply(w, BackendStep(n, e)), n);
    }
  }

  lemma MachineKeepsLives(w: World, n: Name, gated: bool)
    requires Lives(w) && Enabled(w, MachineReconcile(n, gated))
    ensures Lives(MachineReconciled(w, n, gated))
  {
    var w' := MachineReconciled(w, n, gated);
    assert w'.backends == w.backends && LifeOk(w.Vm(n), w.BackendOf(n));
    if w'.vms == w.vms {
      SameLives(w, w');
    } else {
      if n in w.vms { DeletedIsOk(w.vms[n], w.BackendOf(n)); } else { QuietIsNew(w.BackendOf(n)); }
      LivesAfter(w, w', n);
    }
  }

  lemma DeleteVmKeepsLives(w: World, n: Name)
    requires Lives(w) && n in w.vms
    ensures Lives(VmDeleted(w, n))
  {
    assert LifeOk(w.Vm(n), w.BackendOf(n));
    DeletedIsOk(w.vms[n], w.BackendOf(n));
    LivesAfter(w, VmDeleted(w, n), n);
  }

  lemma SameLives(w: World, w': World)
    requires Lives(w) && w'.vms == w.vms && w'.backends == w.backends
    ensures Lives(w')
  {
    forall k ensures LifeOk(w'.Vm(k), w'.BackendOf(k)) {
      assert LifeOk(w.Vm(k), w.BackendOf(k));
    }
  }

  // Every step keeps the backend and the ICSVMs in line, as long as iCenter is
  // reachable.
  lemma StepKeepsLives(w: World, act: Action)
    requires Lives(w) && Enabled(w, act) && (act.VmReconcile? ==> act.reachable)
    ensures Lives(Apply(w, act))
  {
    match act
    case VmReconcile(n, _, gated, a, again) => VmKeepsLives(w, n, gated, a, again);
    case BackendStep(n, e) => BackendKeepsLives(w, n, e);
    case MachineReconcile(n, gated) => MachineKeepsLives(w, n, gated);
    case DeleteVm(n) => DeleteVmKeepsLives(w, n);
    case _ =>
      OthersKeepVms(w, act);
      SameLives(w, Apply(w, act));
  }

  lemma OthersKeepVms(w: World, act: Action)
    requires Enabled(w, act)
    requires !act.VmReconcile? && !act.BackendStep? && !act.MachineReconcile? && !act.DeleteVm?
    ensures Apply(w, act).vms == w.vms && Apply(w, act).backends == w.backends
  {
    if act.ClusterReconcile? { ClusterKeepsVms(w, act.patched, act.removed, act.stripped, act.ok); }
  }

  lemma ClusterKeepsVms(w: World, patched: set<Name>, removed: set<Name>, stripped: set<Name>, ok: bool)
    requires w.cluster.Some?
    ensures var w' := ClusterReconciled(w, patched, removed, stripped, ok); w'.vms == w.vms && w'.backends == w.backends
  {
  }

  // ------------------------------------------------------------------- runs

  ghost predicate IsRun(worlds: seq<World>, acts: seq<Action>) {
    && |worlds| == |acts| + 1 && worlds[0] == START
    && forall i :: 0 <= i < |acts| ==> Enabled(worlds[i], acts[i]) && worlds[i + 1] == Apply(worlds[i], acts[i])
  }

  predicate AlwaysReachable(acts: seq<Action>) {
    forall i :: 0 <= i < |acts| && acts[i].VmReconcile? ==> acts[i].reachable
  }

  lemma {:induction false} RunKeepsInv(worlds: seq<World>, acts: seq<Action>, i: nat)
    requires IsRun(worlds, acts) && AlwaysReachable(acts) && i < |worlds|
    ensures Linked(worlds[i]) && Lives(worlds[i])
  {
    if i > 0 {
      RunKeepsInv(worlds, acts, i - 1);
      StepKeepsLinked(worlds[i - 1], acts[i - 1]);
      StepKeepsLives(worlds[i - 1], acts[i - 1]);
    }
  }

  // ------------------------------------------------------------ main results

  // In every run with iCenter reachable, while a backend VM exists or is being
  // made, its ICSVM, ICSMachine and ICSCluster objects all exist, and each holds
  // its finalizer.
  lemma VmIsNeverOrphaned(worlds: seq<World>, acts: seq<Action>, i: nat, n: Name)
    requires IsRun(worlds, acts) && AlwaysReachable(acts) && i < |worlds|
    requires !Quiet(worlds[i].BackendOf(n))
    ensures var w := worlds[i];
            && n in w.vms && w.vms[n].finalizer
            && n in w.machines && w.machines[n].finalizer
            && w.cluster.Some? && w.cluster.value.finalizer
  {
    RunKeepsInv(worlds, acts, i);
    assert LifeOk(worlds[i].Vm(n), worlds[i].BackendOf(n));
  }

  // So when the ICSCluster is gone, no VM of any of its machines is left, and the
  // backend holds at most one VM per ICSVM throughout.
  lemma ClusterGoneMeansEmpty(worlds: seq<World>, acts: seq<Action>, i: nat, n: Name)
    requires IsRun(worlds, acts) && AlwaysReachable(acts) && i < |worlds|
    ensures AtMostOneVM(worlds[i].BackendOf(n))
    ensures worlds[i].cluster.None? ==> Quiet(worlds[i].BackendOf(n))
  {
    RunKeepsInv(worlds, acts, i);
    assert LifeOk(worlds[i].Vm(n), worlds[i].BackendOf(n));
  }

  // The one way to orphan a VM, exactly: a deleted ICSVM is reconciled while
  // iCenter is unreachable and its backend is not yet empty.
  lemma OrphansExactly(w: World, act: Action)
    requires Linked(w) && Lives(w) && Enabled(w, act)
    ensures (exists n :: n !in Apply(w, act).vms && !Quiet(Apply(w, act).BackendOf(n)))
            <==> && act.VmReconcile? && !act.reachable
                 && w.vms[act.n].o.deleting && !Quiet(w.BackendOf(act.n))
  {
    var w' := Apply(w, act);
    if act.VmReconcile? && !act.reachable {
      forall n ensures LifeOk(w.Vm(n), w.BackendOf(n)) {}
      assert w'.BackendOf(act.n) == w.BackendOf(act.n);
      assert forall n :: n != act.n ==> w'.Vm(n) == w.Vm(n) && w'.BackendOf(n) == w.BackendOf(n);
    } else {
      StepKeepsLives(w, act);
      forall n | n !in w'.vms ensures Quiet(w'.BackendOf(n)) {
        assert LifeOk(w'.Vm(n), w'.BackendOf(n));
      }
    }
  }
}
