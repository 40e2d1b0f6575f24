// That deletion comes to an end: once an ICSCluster and its machines are being
// deleted, a bounded number of turns of its controllers leaves nothing, with iCenter
// reachable, requests accepted and tasks ending well.
module DeletionEnds {
  import opened Wrappers
  import opened VmLifecycle
  import opened VmDestroy
  import opened DeletionChain

  // A machine's turn: its ICSMachine is reconciled, then its ICSVM, and the task
  // that this one issued, or waited for, ends well. A machine that is gone, or whose
  // CAPI Machine never took it, has nothing to do.
  ghost predicate MachineTurn(w: World, w': World, n: Name) {
    if HasTurns(w, n) then exists a, again, id, vm :: TurnBy(w, w', n, a, again, id, vm)
    else w' == w
  }

  predicate HasTurns(w: World, n: Name) {
    n in w.machines && CapiMachine in w.machines[n].owners
  }

  ghost predicate TurnBy(w: World, w': World, n: Name, a: Answers, again: Answers, id: Id, vm: BackendVM) {
    && Enabled(w, MachineReconcile(n, true))
    && var w1 := Apply(w, MachineReconcile(n, true));
       if n !in w1.vms then w' == w1
       else
         && Enabled(w1, VmReconcile(n, true, false, a, again))
         && RoundAnswers(w1.SysOf(n), a) && NewVM(w1.BackendOf(n), id, vm)
         && TaskTurn(Apply(w1, VmReconcile(n, true, false, a, again)), w', n, id, vm)
  }

  // What is in flight for the ICSVM, if anything, ends well.
  ghost predicate TaskTurn(w: World, w': World, n: Name, id: Id, vm: BackendVM) {
    var s := w.SysOf(n);
    if n in w.vms && InFlightTask(s.b, s.o.taskRef) then
      var e := TaskStep(s.o.taskRef, FINISHED, !s.b.tasks[s.o.taskRef].applied, id, vm);
      Enabled(w, BackendStep(n, e)) && w' == Apply(w, BackendStep(n, e))
    else w' == w
  }

  // The ICSCluster's turn: a reconcile whose calls succeed.
  ghost predicate ClusterTurn(w: World, w': World) {
    if w.cluster.None? then w' == w
    else exists removed :: ClusterTurnBy(w, w', removed)
  }

  ghost predicate ClusterTurnBy(w: World, w': World, removed: set<Name>) {
    var act := ClusterReconcile(w.machines.Keys, removed, {}, true);
    Enabled(w, act) && w' == Apply(w, act)
  }

  // -------------------------------------------------------- what is being left

  // The machine is being deleted, or no CAPI Machine ever took it.
  predicate MachineLeaves(m: MachineObject) {
    (CapiMachine in m.owners && m.deleting) || m.owners <= {TheICSCluster}
  }

  ghost predicate Leaving(w: World) {
    && Linked(w) && Lives(w)
    && (if w.cluster.Some? then w.cluster.value.deleting else w.machines == map[])
    && (forall n :: n in w.machines ==> MachineLeaves(w.machines[n]))
    && (forall n :: n in w.vms ==> Recognised(w.BackendOf(n)) && KnownTask(w.SysOf(n)))
  }

  // How many turns a machine still needs at most.
  function VmRest(s: Sys): nat {
    if InFlightTask(s.b, s.o.taskRef) then 3 else QuietRank(s.b)
  }

  function Rest(w: World, n: Name): nat {
    if n !in w.machines then 0 else if n !in w.vms then 1 else 2 + VmRest(w.SysOf(n))
  }

  ghost predicate SameBut(w: World, w': World, n: Name) {
    && w'.cluster == w.cluster
    && (forall k :: k != n ==> (k in w'.machines <==> k in w.machines) && (k in w'.vms <==> k in w.vms))
    && (forall k :: k != n && k in w.machines ==> w'.machines[k] == w.machines[k])
    && (forall k :: k != n && k in w.vms ==> w'.SysOf(k) == w.SysOf(k))
  }

  // An ICSVM that is not yet being deleted is marked so; one without finalizer goes.
  lemma MachineStep(w: World, n: Name)
    requires Leaving(w) && HasTurns(w, n)
    ensures var w1 := MachineReconciled(w, n, true);
            && SameBut(w, w1, n) && w1.backends == w.backends
            && (n in w1.machines <==> n in w.vms) && (n in w1.machines ==> w1.machines[n] == w.machines[n])
            && (n in w1.vms <==> n in w.vms && w.vms[n].finalizer)
            && (n in w1.vms ==> w1.vms[n] == w.vms[n].(o := w.vms[n].o.(deleting := true)))
  {
  }

  lemma MachineStepKeeps(w: World, n: Name)
    requires Leaving(w) && Enabled(w, MachineReconcile(n, true))
    ensures var w1 := Apply(w, MachineReconcile(n, true));
            && w1 == MachineReconciled(w, n, true) && Linked(w1) && Lives(w1)
  {
    StepKeepsLinked(w, MachineReconcile(n, true));
    StepKeepsLives(w, MachineReconcile(n, true));
  }

  // The ICSVM, if it is still there, is ready for a round.
  lemma MarkedIsReady(w: World, w1: World, n: Name)
    requires Leaving(w) && Lives(w1) && w1.backends == w.backends && n in w.vms && n in w1.vms && w.vms[n].finalizer
    requires w1.vms[n] == w.vms[n].(o := w.vms[n].o.(deleting := true))
    ensures RoundInv(w1.SysOf(n)) && VmRest(w1.SysOf(n)) == VmRest(w.SysOf(n))
  {
    assert LifeOk(w1.Vm(n), w1.BackendOf(n));
    assert w1.BackendOf(n) == w.BackendOf(n) && KnownTask(w.SysOf(n));
  }

  lemma DestroyStep(w: World, n: Name, a: Answers, again: Answers)
    requires Linked(w) && Lives(w) && n in w.vms && w.vms[n].o.deleting
    requires Enabled(w, VmReconcile(n, true, false, a, again))
    ensures var w2 := Apply(w, VmReconcile(n, true, false, a, again));
            var (s2, out) := DestroyVM(w.SysOf(n), a);
            && Linked(w2) && Lives(w2) && SameBut(w, w2, n) && w2.machines == w.machines
            && (n in w2.vms <==> out != NotFound) && (n in w2.vms ==> w2.SysOf(n) == s2)
  {
    StepKeepsLinked(w, VmReconcile(n, true, false, a, again));
    StepKeepsLives(w, VmReconcile(n, true, false, a, again));
  }

  // One round of DestroyVM, seen from the world.
  lemma VmStep(w1: World, w': World, n: Name, a: Answers, again: Answers, id: Id, vm: BackendVM)
    requires Linked(w1) && Lives(w1) && n in w1.vms && RoundInv(w1.SysOf(n))
    requires Enabled(w1, VmReconcile(n, true, false, a, again))
    requires RoundAnswers(w1.SysOf(n), a) && NewVM(w1.BackendOf(n), id, vm)
    requires TaskTurn(Apply(w1, VmReconcile(n, true, false, a, again)), w', n, id, vm)
    ensures Linked(w') && Lives(w') && SameBut(w1, w', n) && w'.machines == w1.machines
    ensures n in w'.vms ==> RoundInv(w'.SysOf(n)) && VmRest(w'.SysOf(n)) < VmRest(w1.SysOf(n))
  {
    DestroyStep(w1, n, a, again);
    var w2 := Apply(w1, VmReconcile(n, true, false, a, again));
    var s := w1.SysOf(n);
    if n in w2.vms {
      TaskTurnCompletes(w2, w', n, id, vm);
      RoundLowersRest(s, w'.SysOf(n), a, id, vm);
    }
  }

  lemma RoundLowersRest(s: Sys, s': Sys, a: Answers, id: Id, vm: BackendVM)
    requires RoundInv(s) && RoundAnswers(s, a) && NewVM(s.b, id, vm)
    requires DestroyVM(s, a).1 != NotFound && s' == Complete(DestroyVM(s, a).0, id, vm)
    ensures RoundInv(s') && VmRest(s') < VmRest(s)
  {
    assert RoundBy(s, s', DestroyVM(s, a).1, a, id, vm);
    OneRound(s, s', DestroyVM(s, a).1);
  }

  lemma TaskTurnCompletes(w: World, w': World, n: Name, id: Id, vm: BackendVM)
    requires Linked(w) && Lives(w) && n in w.vms && TaskTurn(w, w', n, id, vm)
    ensures Linked(w') && Lives(w') && SameBut(w, w', n) && w'.machines == w.machines && n in w'.vms
    ensures w'.SysOf(n) == Complete(w.SysOf(n), id, vm)
  {
    var s := w.SysOf(n);
    if InFlightTask(s.b, s.o.taskRef) {
      var e := TaskStep(s.o.taskRef, FINISHED, !s.b.tasks[s.o.taskRef].applied, id, vm);
      StepKeepsLinked(w, BackendStep(n, e));
      StepKeepsLives(w, BackendStep(n, e));
    }
  }

  // Whatever keeps the links and lives, and leaves machines and ICSVMs that leave.
  lemma StillLeaving(w: World, w': World)
    requires Leaving(w) && Linked(w') && Lives(w')
    requires if w'.cluster.Some? then w'.cluster == w.cluster else w'.machines == map[]
    requires forall n :: n in w'.machines ==> MachineLeaves(w'.machines[n])
    requires forall n :: n in w'.vms ==>
               (n in w.vms && w'.SysOf(n) == w.SysOf(n)) || (Recognised(w'.BackendOf(n)) && KnownTask(w'.SysOf(n)))
    ensures Leaving(w')
  {
  }

  // A turn does at least one unit of a machine's work, and touches no other.
  lemma TurnDecreases(w: World, w': World, n: Name)
    requires Leaving(w) && MachineTurn(w, w', n) && HasTurns(w, n)
    ensures Leaving(w') && SameBut(w, w', n) && Rest(w', n) < Rest(w, n)
    ensures n in w'.machines ==> w'.machines[n] == w.machines[n]
  {
    var a, again, id, vm :| TurnBy(w, w', n, a, again, id, vm);
    MachineStep(w, n);
    MachineStepKeeps(w, n);
    var w1 := MachineReconciled(w, n, true);
    if n in w1.vms {
      MarkedIsReady(w, w1, n);
      VmStep(w1, w', n, a, again, id, vm);
      SameButTwice(w, w1, w', n);
    }
    LowerAndLeaving(w, w', n);
  }

  lemma LowerAndLeaving(w: World, w': World, n: Name)
    requires Leaving(w) && Linked(w') && Lives(w') && SameBut(w, w', n) && HasTurns(w, n) && w.cluster.Some?
    requires n in w'.machines ==> n in w.vms && w'.machines[n] == w.machines[n]
    requires n in w'.vms ==> n in w.vms && RoundInv(w'.SysOf(n)) && VmRest(w'.SysOf(n)) < VmRest(w.SysOf(n))
    ensures Leaving(w') && Rest(w', n) < Rest(w, n)
  {
    StillLeaving(w, w');
  }

  lemma SameButTwice(w: World, w1: World, w': World, n: Name)
    requires SameBut(w, w1, n) && SameBut(w1, w', n)
    ensures SameBut(w, w', n)
  {
  }

  // The ICSCluster's turn removes the machines that no CAPI Machine took, leaves the
  // others their work, and is the last one when there is none.
  lemma ClusterTurnKeeps(w: World, w': World)
    requires Leaving(w) && ClusterTurn(w, w')
    ensures Leaving(w') && w'.vms == w.vms && w'.backends == w.backends
    ensures forall n :: n in w'.machines <==> HasTurns(w, n)
    ensures forall n :: n in w'.machines ==> HasTurns(w', n)
    ensures (forall n :: !HasTurns(w, n)) ==> w'.cluster.None?
  {
    if w.cluster.Some? {
      var removed :| ClusterTurnBy(w, w', removed);
      ClusterStepKeeps(w, w', removed);
      ClusterTurnResult(w, w', removed);
    }
  }

  lemma ClusterTurnResult(w: World, w': World, removed: set<Name>)
    requires Leaving(w) && w.cluster.Some? && Linked(w') && Lives(w') && w'.vms == w.vms && w'.backends == w.backends
    requires removed == SolelyOwnedNames(WithClusterOwner(w.machines, w.machines.Keys))
    requires w' == ClusterReconciled(w, w.machines.Keys, removed, {}, true)
    ensures Leaving(w') && forall n :: n in w'.machines <==> HasTurns(w, n)
    ensures forall n :: n in w'.machines ==> HasTurns(w', n)
    ensures (forall n :: !HasTurns(w, n)) ==> w'.cluster.None?
  {
    ClusterTurnMachines(w, removed);
    NobodyLeft(w, w');
    StillLeaving(w, w');
  }

  lemma ClusterStepKeeps(w: World, w': World, removed: set<Name>)
    requires Linked(w) && Lives(w) && ClusterTurnBy(w, w', removed)
    ensures Linked(w') && Lives(w') && w'.vms == w.vms && w'.backends == w.backends
    ensures w.cluster.Some? && w' == ClusterReconciled(w, w.machines.Keys, removed, {}, true)
    ensures removed == SolelyOwnedNames(WithClusterOwner(w.machines, w.machines.Keys))
  {
    StepKeepsLinked(w, ClusterReconcile(w.machines.Keys, removed, {}, true));
    StepKeepsLives(w, ClusterReconcile(w.machines.Keys, removed, {}, true));
    ClusterKeepsVms(w, w.machines.Keys, removed, {}, true);
  }

  lemma NobodyLeft(w: World, w': World)
    requires forall n :: n in w'.machines <==> HasTurns(w, n)
    requires w'.cluster.None? ==> forall n :: !HasTurns(w, n)
    ensures w'.cluster.None? ==> w'.machines == map[]
  {
    if w'.cluster.None? { assert w'.machines.Keys == {}; }
  }

  lemma ClusterTurnMachines(w: World, removed: set<Name>)
    requires w.cluster.Some? && w.cluster.value.deleting && forall n :: n in w.machines ==> MachineLeaves(w.machines[n])
    requires removed == SolelyOwnedNames(WithClusterOwner(w.machines, w.machines.Keys))
    ensures var w' := ClusterReconciled(w, w.machines.Keys, removed, {}, true);
            && (forall n :: n in w'.machines <==> HasTurns(w, n))
            && (forall n :: n in w'.machines ==> HasTurns(w', n) && w'.machines[n].deleting)
            && w'.cluster == if forall n :: !HasTurns(w, n) then None else w.cluster
  {
    RemovedExactly(w);
    var left := AfterRemoval(WithClusterOwner(w.machines, w.machines.Keys), removed, {});
    if n :| HasTurns(w, n) {
      assert n in left.Keys;
    } else {
      assert left == map[];
    }
  }

  lemma RemovedExactly(w: World)
    requires forall n :: n in w.machines ==> MachineLeaves(w.machines[n])
    ensures forall n :: n in w.machines ==>
              (n in SolelyOwnedNames(WithClusterOwner(w.machines, w.machines.Keys)) <==> !HasTurns(w, n))
  {
    var machines := WithClusterOwner(w.machines, w.machines.Keys);
    forall n | n in w.machines ensures SolelyOwned(machines[n]) <==> !HasTurns(w, n) {
      if SolelyOwned(machines[n]) { SolelyOwnedHasOneOwner(machines[n]); }
      if !HasTurns(w, n) { assert machines[n].owners == {TheICSCluster}; }
    }
  }

  // ------------------------------------------------------------------- runs

  datatype Turn = OfMachine(n: Name) | OfCluster

  ghost predicate TurnAt(worlds: seq<World>, turns: seq<Turn>, i: nat)
    requires |worlds| == |turns| + 1 && i < |turns|
  {
    match turns[i]
    case OfMachine(n) => MachineTurn(worlds[i], worlds[i + 1], n)
    case OfCluster => ClusterTurn(worlds[i], worlds[i + 1])
  }

  // Turns in any order, from a world that is being deleted.
  ghost predicate IsEnding(worlds: seq<World>, turns: seq<Turn>) {
    && |worlds| == |turns| + 1 && Leaving(worlds[0])
    && forall i :: 0 <= i < |turns| ==> TurnAt(worlds, turns, i)
  }

  function TurnsOf(turns: seq<Turn>, n: Name): nat {
    if turns == [] then 0
    else TurnsOf(turns[..|turns| - 1], n) + if turns[|turns| - 1] == OfMachine(n) then 1 else 0
  }

  ghost predicate OnSchedule(w0: World, w: World, done: nat, n: Name) {
    HasTurns(w, n) ==> HasTurns(w0, n) && Rest(w, n) + done <= 5
  }

  lemma OneTurn(w0: World, w: World, w': World, turn: Turn, done: nat, n: Name)
    requires Leaving(w) && OnSchedule(w0, w, done, n)
    requires if turn.OfMachine? then MachineTurn(w, w', turn.n) else ClusterTurn(w, w')
    ensures Leaving(w') && OnSchedule(w0, w', done + if turn == OfMachine(n) then 1 else 0, n)
  {
    match turn
    case OfCluster => ClusterTurnKeeps(w, w');
    case OfMachine(m) => if HasTurns(w, m) { OneMachineTurn(w0, w, w', m, done, n); }
  }

  lemma OneMachineTurn(w0: World, w: World, w': World, m: Name, done: nat, n: Name)
    requires Leaving(w) && OnSchedule(w0, w, done, n) && HasTurns(w, m) && MachineTurn(w, w', m)
    ensures Leaving(w') && OnSchedule(w0, w', done + if m == n then 1 else 0, n)
  {
    TurnDecreases(w, w', m);
  }

  lemma {:induction false} StaysOnSchedule(worlds: seq<World>, turns: seq<Turn>, i: nat, n: Name)
    requires IsEnding(worlds, turns) && i <= |turns|
    ensures Leaving(worlds[i]) && OnSchedule(worlds[0], worlds[i], TurnsOf(turns[..i], n), n)
  {
    if i > 0 {
      StaysOnSchedule(worlds, turns, i - 1, n);
      assert TurnAt(worlds, turns, i - 1) && turns[..i][..i - 1] == turns[..i - 1];
      OneTurn(worlds[0], worlds[i - 1], worlds[i], turns[i - 1], TurnsOf(turns[..i - 1], n), n);
    }
  }

  // Once every machine that a CAPI Machine took has had five turns, in whatever
  // order, the ICSCluster's next turn is the last: the ICSCluster, every ICSMachine
  // and every ICSVM are gone, and the backend holds nothing of them.
  lemma DeletionEndsAfterFiveTurns(worlds: seq<World>, turns: seq<Turn>, i: nat)
    requires IsEnding(worlds, turns) && i < |turns| && turns[i] == OfCluster
    requires forall n :: HasTurns(worlds[0], n) ==> TurnsOf(turns[..i], n) >= 5
    ensures var w := worlds[i + 1];
            && w.cluster.None? && w.machines == map[] && w.vms == map[]
            && forall n :: Quiet(w.BackendOf(n))
  {
    var w, w' := worlds[i], worlds[i + 1];
    StaysOnSchedule(worlds, turns, i, "");
    assert TurnAt(worlds, turns, i);
    forall n ensures !HasTurns(w, n) {
      StaysOnSchedule(worlds, turns, i, n);
    }
    ClusterTurnKeeps(w, w');
    assert w'.machines == map[];
    forall n ensures Quiet(w'.BackendOf(n)) {
      assert n !in w'.vms && LifeOk(w'.Vm(n), w'.BackendOf(n));
    }
  }

  // ------------------------------------------------ such runs can always go on

  lemma TaskTurnIsPossible(w: World, n: Name, id: Id, vm: BackendVM) returns (w': World)
    requires NewVM(w.BackendOf(n), id, vm)
    ensures TaskTurn(w, w', n, id, vm)
  {
    var s := w.SysOf(n);
    w' := w;
    if n in w.vms && InFlightTask(s.b, s.o.taskRef) {
      var e := TaskStep(s.o.taskRef, FINISHED, !s.b.tasks[s.o.taskRef].applied, id, vm);
      w' := Apply(w, BackendStep(n, e));
    }
  }

  lemma VmTurnIsPossible(w: World, n: Name) returns (w': World, a: Answers, again: Answers, id: Id, vm: BackendVM)
    requires Linked(w) && n in w.vms && w.vms[n].o.deleting && "" !in w.BackendOf(n).tasks
    ensures Enabled(w, VmReconcile(n, true, false, a, again))
    ensures RoundAnswers(w.SysOf(n), a) && NewVM(w.BackendOf(n), id, vm)
    ensures TaskTurn(Apply(w, VmReconcile(n, true, false, a, again)), w', n, id, vm)
  {
    var s := w.SysOf(n);
    a := TrueAnswers(s);
    again := TrueAnswers(ReconcileVM(s, a).0);
    id := FreshString(w.BackendOf(n).vms.Keys);
    vm := BackendVM("", STOPPED);
    DestroyKeepsVMs(s, a);
    w' := TaskTurnIsPossible(Apply(w, VmReconcile(n, true, false, a, again)), n, id, vm);
  }

  lemma MachineTurnIsPossible(w: World, n: Name) returns (w': World)
    requires Leaving(w)
    ensures MachineTurn(w, w', n)
  {
    w' := w;
    if HasTurns(w, n) {
      MachineStep(w, n);
      MachineStepKeeps(w, n);
      w' := MachineReconciled(w, n, true);
      var vm := BackendVM("", STOPPED);
      var a := Answers(NoTaskInfo, Missing, Missing, Missing, true, true, true, true, true, true, "", None);
      if n in w'.vms {
        var w1 := w';
        assert LifeOk(w1.Vm(n), w1.BackendOf(n));
        var again, id;
        w', a, again, id, vm := VmTurnIsPossible(w1, n);
        assert TurnBy(w, w', n, a, again, id, vm);
      } else {
        assert TurnBy(w, w', n, a, a, "", vm);
      }
    }
  }

  lemma DestroyKeepsVMs(s: Sys, a: Answers)
    ensures DestroyVM(s, a).0.b.vms == s.b.vms
  {
  }

  lemma ClusterTurnIsPossible(w: World) returns (w': World)
    requires Leaving(w)
    ensures ClusterTurn(w, w')
  {
    w' := w;
    if w.cluster.Some? {
      var removed := SolelyOwnedNames(WithClusterOwner(w.machines, w.machines.Keys));
      w' := Apply(w, ClusterReconcile(w.machines.Keys, removed, {}, true));
      assert ClusterTurnBy(w, w', removed);
    }
  }
}
