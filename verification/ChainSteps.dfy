// What single reconciles of DeletionChain do, told from the objects; and that its
// runs reach VMs that exist, and their deletion.
module ChainSteps {
  import opened Wrappers
  import opened VmLifecycle
  import opened VmDestroy
  import opened VmProgress
  import opened DeletionChain
  import opened DeletionEnds

  // ------------------------------------------------------------ single steps

  // The reconcile of an ICSMachine that is not being deleted creates its ICSVM,
  // without a finalizer, exactly when there is none, nothing stops it early and the
  // infrastructure is ready; and it sets the ICSMachine's finalizer.
  lemma MachineReconcileExactly(w: World, n: Name, gated: bool)
    requires Enabled(w, MachineReconcile(n, gated)) && !w.machines[n].deleting
    ensures var w' := Apply(w, MachineReconcile(n, gated));
            && (n in w'.vms <==> n in w.vms || (!gated && w.infraReady && w.cluster.Some?))
            && (n in w'.vms ==> w'.vms[n] == if n in w.vms then w.vms[n] else VmEntry(false, NEW_OBJECT))
            && (forall k :: k != n ==> w'.Vm(k) == w.Vm(k))
            && w'.machines == w.machines[n := w.machines[n].(finalizer := w.machines[n].finalizer || w.cluster.Some?)]
            && w'.cluster == w.cluster && w'.backends == w.backends
  {
    var m := w.machines[n];
    assert w.machines[n := m] == w.machines;
  }

  // That of one being deleted deletes its ICSVM, and goes exactly when there is none.
  lemma DeletedMachineExactly(w: World, n: Name, gated: bool)
    requires Enabled(w, MachineReconcile(n, gated)) && w.machines[n].deleting
    ensures var w' := Apply(w, MachineReconcile(n, gated));
            && (n in w'.machines <==> n in w.vms)
            && (n in w'.vms <==> n in w.vms && w.vms[n].finalizer)
            && (n in w'.vms ==> w'.vms[n] == w.vms[n].(o := w.vms[n].o.(deleting := true)))
            && (forall k :: k != n ==> w'.Vm(k) == w.Vm(k))
            && w'.cluster == w.cluster && w'.backends == w.backends
  {
  }

  // The reconcile of a live ICSVM sets its finalizer, and reconciles its VM exactly
  // when nothing stops it early and iCenter is reachable.
  lemma VmReconcileExactly(w: World, n: Name, reachable: bool, gated: bool, a: Answers, again: Answers)
    requires Enabled(w, VmReconcile(n, reachable, gated, a, again)) && !w.vms[n].o.deleting
    ensures var w' := Apply(w, VmReconcile(n, reachable, gated, a, again));
            && n in w'.vms && w'.vms[n].finalizer
            && w'.SysOf(n) == (if reachable && !gated then ReconcileNormal(w.SysOf(n), a, again).0 else w.SysOf(n))
            && w'.machines == w.machines && w'.cluster == w.cluster
            && (forall k :: k != n ==> w'.Vm(k) == w.Vm(k) && w'.BackendOf(k) == w.BackendOf(k))
  {
  }

  // One being deleted goes exactly when iCenter is unreachable, or the backend holds
  // no VM and nothing in flight.
  lemma DeletedVmExactly(w: World, n: Name, reachable: bool, gated: bool, a: Answers, again: Answers)
    requires Lives(w) && Enabled(w, VmReconcile(n, reachable, gated, a, again)) && w.vms[n].o.deleting
    ensures var w' := Apply(w, VmReconcile(n, reachable, gated, a, again));
            && (n in w'.vms <==> reachable && !Quiet(w.BackendOf(n)))
            && w'.machines == w.machines && w'.cluster == w.cluster
            && (forall k :: k != n ==> w'.Vm(k) == w.Vm(k) && w'.BackendOf(k) == w.BackendOf(k))
  {
    var s := w.SysOf(n);
    assert LifeOk(w.Vm(n), w.BackendOf(n));
    if DestroyVM(s, a).1 == NotFound { NotFoundMeansGone(s, a); }
    if Quiet(s.b) { DestroyIdle(s, a); }
  }

  // The reconcile of an ICSCluster: a live one has its finalizer once every call
  // succeeds; one being deleted goes exactly when besides no machine is left, which
  // is when each has no owner but the ICSCluster.
  lemma ClusterReconcileExactly(w: World, patched: set<Name>, removed: set<Name>, stripped: set<Name>, ok: bool)
    requires Enabled(w, ClusterReconcile(patched, removed, stripped, ok))
    ensures var c, w' := w.cluster.value, Apply(w, ClusterReconcile(patched, removed, stripped, ok));
            && (!c.deleting ==> w'.cluster == Some(c.(finalizer := c.finalizer || ok)))
            && (c.deleting ==> w'.cluster
                               == if ok && forall n :: n in w.machines ==> w.machines[n].owners <= {TheICSCluster}
                                  then None else w.cluster)
            && w'.vms == w.vms && w'.backends == w.backends
  {
    ClusterKeepsVms(w, patched, removed, stripped, ok);
    if ok {
      var machines := WithClusterOwner(w.machines, w.machines.Keys);
      forall n | n in w.machines ensures SolelyOwned(machines[n]) <==> w.machines[n].owners <= {TheICSCluster} {
        if SolelyOwned(machines[n]) { SolelyOwnedHasOneOwner(machines[n]); }
        if w.machines[n].owners <= {TheICSCluster} { assert machines[n].owners == {TheICSCluster}; }
      }
      LeftExactly(machines, removed);
    }
  }

  lemma LeftExactly(machines: map<Name, MachineObject>, removed: set<Name>)
    requires removed == SolelyOwnedNames(machines)
    ensures |AfterRemoval(machines, removed, {})| == 0 <==> forall n :: n in machines ==> SolelyOwned(machines[n])
  {
    var left := AfterRemoval(machines, removed, {});
    if n :| n in machines && !SolelyOwned(machines[n]) {
      assert n in left;
    } else {
      assert left == map[];
    }
  }

  // ------------------------------------------------------------ runs that reach

  // Some run with iCenter reachable leads here.
  ghost predicate Reaches(w: World) {
    exists worlds, acts :: RunTo(worlds, acts, w)
  }

  ghost predicate RunTo(worlds: seq<World>, acts: seq<Action>, w: World) {
    DeletionChain.IsRun(worlds, acts) && AlwaysReachable(acts) && worlds[|acts|] == w
  }

  lemma StartIsReached()
    ensures Reaches(START)
  {
    assert RunTo([START], [], START);
  }

  lemma StepReaches(w: World, act: Action)
    requires Reaches(w) && Enabled(w, act) && (act.VmReconcile? ==> act.reachable)
    ensures Reaches(Apply(w, act))
  {
    var worlds, acts :| RunTo(worlds, acts, w);
    var worlds', acts' := worlds + [Apply(w, act)], acts + [act];
    forall i | 0 <= i < |acts'|
      ensures Enabled(worlds'[i], acts'[i]) && worlds'[i + 1] == Apply(worlds'[i], acts'[i])
    {
      if i < |acts| {
        assert worlds'[i] == worlds[i] && worlds'[i + 1] == worlds[i + 1] && acts'[i] == acts[i];
      } else {
        assert worlds'[i] == w && acts'[i] == act;
      }
    }
    assert RunTo(worlds', acts', Apply(w, act));
  }

  // A machine with its ICSVM, and nothing made for it yet.
  ghost predicate WithIcsVm(w: World, n: Name) {
    && w.cluster == Some(ClusterObject(true, false)) && w.infraReady
    && w.machines == map[n := MachineObject({CapiMachine}, true, false)]
    && w.vms == map[n := VmEntry(false, NEW_OBJECT)] && w.backends == map[]
  }

  lemma IcsVmIsReached(n: Name) returns (w: World)
    ensures Reaches(w) && WithIcsVm(w, n)
  {
    StartIsReached();
    StepReaches(START, ClusterReconcile({}, {}, {}, true));
    var w1 := Apply(START, ClusterReconcile({}, {}, {}, true));
    StepReaches(w1, InfrastructureReady);
    var w2 := Apply(w1, InfrastructureReady);
    StepReaches(w2, NewMachine(n, {CapiMachine}));
    var w3 := Apply(w2, NewMachine(n, {CapiMachine}));
    StepReaches(w3, MachineReconcile(n, false));
    w := Apply(w3, MachineReconcile(n, false));
  }

  // Its VM is there, and nothing in flight for it.
  ghost predicate WithVM(w: World, n: Name) {
    && w.cluster == Some(ClusterObject(true, false)) && w.infraReady
    && w.machines == map[n := MachineObject({CapiMachine}, true, false)]
    && w.vms.Keys == {n} && w.vms[n].finalizer
    && Usable(w.BackendOf(n)) && !NoVM(w.BackendOf(n)) && Idle(w.BackendOf(n))
  }

  // The runs of the chain are not empty: for every machine, one reaches a VM. So
  // there is something for VmIsNeverOrphaned to say.
  lemma VmIsReached(n: Name) returns (w: World)
    ensures Reaches(w) && WithVM(w, n)
  {
    var w1 := IcsVmIsReached(n);
    var s := w1.SysOf(n);
    var a := TrueAnswers(s);
    var again := TrueAnswers(ReconcileVM(s, a).0);
    InitInv();
    CallWithoutVM(s, a);
    StepReaches(w1, VmReconcile(n, true, false, a, again));
    var w2 := Apply(w1, VmReconcile(n, true, false, a, again));
    VmReconcileExactly(w1, n, true, false, a, again);
    var e := TaskStep(a.newTask, FINISHED, true, "v", BackendVM("u", STOPPED));
    StepReaches(w2, BackendStep(n, e));
    w := Apply(w2, BackendStep(n, e));
    assert w.BackendOf(n).vms == map["v" := BackendVM("u", STOPPED)];
    assert "v" in w.BackendOf(n).vms;
  }

  // And from there the user's deletions reach a world that DeletionEnds is about.
  lemma LeavingIsReached(n: Name) returns (w: World)
    ensures Reaches(w) && Leaving(w) && HasTurns(w, n) && !NoVM(w.BackendOf(n))
  {
    var w1 := VmIsReached(n);
    StepReaches(w1, DeleteCluster);
    var w2 := Apply(w1, DeleteCluster);
    StepReaches(w2, DeleteMachine(n));
    w := Apply(w2, DeleteMachine(n));
    ReachedKeepsInv(w);
  }

  lemma ReachedKeepsInv(w: World)
    requires Reaches(w)
    ensures Linked(w) && Lives(w)
  {
    var worlds, acts :| RunTo(worlds, acts, w);
    DeletionChain.RunKeepsInv(worlds, acts, |acts|);
  }
}
