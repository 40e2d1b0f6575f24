// The calls of VmLifecycle in the form the source has them: methods that change
// the ICSVM object and the backend step by step. Each is proved to compute the
// value-level function of VmLifecycle, and with the lemmas there to do what its
// callers rely on: keep the lifecycle invariant, create a VM only when there is
// none, and delete one only when it is not on.
module VmController {
  import opened Wrappers
  import opened VmLifecycle
  import VmDestroy
  import opened VmProgress

  // A call on an object that is not being deleted, answered truly.
  ghost predicate LiveCall(s: Sys, a: Answers) {
    Inv(s) && !s.o.deleting && Faithful(s, a)
  }

  // The call issued this kind of task.
  predicate Issued(b: Backend, b': Backend, kind: TaskKind) {
    exists t :: t in b'.tasks && t !in b.tasks && b'.tasks[t].kind == kind
  }

  // Every task that the call issued is of the kind that its target calls for, and
  // goes to a VM that is there.
  ghost predicate EndsInOrder(b: Backend, b': Backend) {
    forall t :: t in b'.tasks && t !in b.tasks ==>
      var task := b'.tasks[t];
      && task.target in b.vms
      && task.kind == (if b.vms[task.target].status == STARTED then PowerOffVM else DeleteVM)
  }

  class VmContext {
    var taskRef: Id
    var uid: Id
    var biosUUID: string
    var deleting: bool
    var backend: Backend

    constructor (s: Sys)
      ensures View() == s
    {
      taskRef, uid, biosUUID := s.o.taskRef, s.o.uid, s.o.biosUUID;
      deleting, backend := s.o.deleting, s.b;
    }

    function View(): Sys
      reads this
    {
      Sys(VmObject(taskRef, uid, biosUUID, deleting), backend)
    }

    // findVM
    method Find(a: Answers) returns (ref: Lookup)
      ensures ref == FindVM(View().o, a)
      ensures biosUUID != "" ==> ref == a.byUUID
      ensures biosUUID == "" && uid != "" && a.byUID.Found? && a.byUID.id != "" ==> ref == a.byUID
      ensures biosUUID == "" && (uid == "" || !a.byUID.Found? || a.byUID.id == "") ==>
                ref == if a.byName.Found? && a.byName.id != "" then a.byName else Missing
      ensures Inv(View()) && Faithful(View(), a) ==>
                && ref != Failed && (ref == Missing <==> NoVM(backend))
                && (ref.Found? ==> ref.id in backend.vms)
    {
      if Inv(View()) && Faithful(View(), a) { FindIsExact(View(), a); }
      if biosUUID != "" {
        return a.byUUID;
      }
      var objRef := Missing;
      if uid != "" {
        objRef := a.byUID;
      }
      if !objRef.Found? || objRef.id == "" {
        if !a.byName.Found? || a.byName.id == "" {
          return Missing;
        }
        return a.byName;
      }
      return objRef;
    }

    // reconcileInFlightTask
    method ReconcileInFlight(a: Answers) returns (inFlight: bool, err: bool)
      modifies this`taskRef
      ensures var (o, gate) := ReconcileInFlightTask(old(View()).o, a);
              View() == old(View()).(o := o) && inFlight == (gate == InFlight) && err == (gate == UnknownTask)
      ensures Inv(old(View())) && Faithful(old(View()), a) ==> Inv(View())
      ensures Inv(old(View())) && Faithful(old(View()), a) && !inFlight && !err ==> forall t :: !InFlightTask(backend, t)
    {
      if Inv(View()) && Faithful(View(), a) {
        GateKeepsInv(View(), a);
        if ReconcileInFlightTask(View().o, a).1 == Proceed { GateOpens(View(), a); }
      }
      inFlight, err := false, false;
      if taskRef == "" || a.task.NoTaskInfo? {
        taskRef := "";
        return;
      }
      match a.task.state {
        case WAITING | RUNNING | READY => inFlight := true;
        case CANCELED | FINISHED | ERROR => taskRef := "";
        case OtherState => err := true;
      }
    }

    // A backend call that starts a task, whose id becomes the object's TaskRef.
    method StartTask(kind: TaskKind, target: Id, a: Answers)
      modifies this`taskRef, this`backend
      ensures View() == Issue(old(View()), kind, target, a)
    {
      backend := backend.(tasks := backend.tasks[a.newTask := Task(kind, target, WAITING, false)]);
      taskRef := a.newTask;
    }

    // The id and BIOS UUID part of GetNetworkStatus; neither is ever blanked.
    method RecordUuids(id: Id)
      requires id in backend.vms
      modifies this`uid, this`biosUUID
      ensures View() == old(View()).(o := WithUuids(old(View()).o, id, backend.vms[id]))
      ensures old(uid) != "" ==> uid != ""
      ensures old(biosUUID) != "" ==> biosUUID != ""
      ensures id != "" ==> uid == id
      ensures backend.vms[id].uuid != "" ==> biosUUID == backend.vms[id].uuid
    {
      if id != "" {
        uid := id;
      }
      if backend.vms[id].uuid != "" {
        biosUUID := backend.vms[id].uuid;
      }
    }

    // reconcilePowerState
    method ReconcilePower(id: Id, a: Answers) returns (out: Outcome)
      modifies this`taskRef, this`backend
      ensures (View(), out) == ReconcilePowerState(old(View()), id, a)
      ensures out.Ready? <==> a.powerReadOk && id in old(backend).vms && old(backend).vms[id].status == STARTED
      ensures out.Ready? ==> out.uuid == if a.uuidReadOk then old(backend).vms[id].uuid else ""
      ensures out == PoweringOnFailed <==>
                && a.powerReadOk && id in old(backend).vms && old(backend).vms[id].status == STOPPED && a.hostReadOk
                && (!a.enoughMemory || (a.accepted && a.waited.Some? && a.waited.value.0 == ERROR))
      ensures forall t :: t in backend.tasks && t !in old(backend).tasks ==>
                && backend.tasks[t].kind == PowerOnVM && backend.tasks[t].target == id
                && id in old(backend).vms && old(backend).vms[id].status == STOPPED
    {
      if !a.powerReadOk || id !in backend.vms {
        return Error;
      }
      var power := GetPowerState(backend.vms[id].status);
      if power == Some(PoweredOff) {
        if !a.hostReadOk {
          return Pending;
        }
        if !a.enoughMemory {
          return PoweringOnFailed;
        }
        if !a.accepted {
          return Error;
        }
        StartTask(PowerOnVM, id, a);
        if a.waited.Some? {
          backend := TaskEnds(backend, a.newTask, a.waited.value.0, a.waited.value.1, "", BackendVM("", STOPPED));
          if a.waited.value.0 == ERROR {
            return PoweringOnFailed;
          }
        }
        return Pending;
      }
      if power == Some(PoweredOn) {
        return Ready(if a.uuidReadOk then backend.vms[id].uuid else "");
      }
      return Error;
    }

    method Reconcile(a: Answers) returns (out: Outcome)
      modifies this
      ensures (View(), out) == ReconcileVM(old(View()), a)
      ensures old(uid) != "" ==> uid != ""
      ensures old(biosUUID) != "" ==> biosUUID != ""
      ensures LiveCall(old(View()), a) ==> Inv(View())
      ensures LiveCall(old(View()), a) ==>
                (out.Ready? <==> Idle(old(backend)) && a.nicsReadOk && a.powerReadOk && HasVM(old(backend), STARTED))
      ensures LiveCall(old(View()), a) ==>
                (out == PoweringOnFailed <==>
                   && Idle(old(backend)) && a.nicsReadOk && a.powerReadOk && a.hostReadOk && HasVM(old(backend), STOPPED)
                   && (!a.enoughMemory || (a.accepted && a.waited.Some? && a.waited.value.0 == ERROR)))
      ensures LiveCall(old(View()), a) && Issued(old(backend), backend, CreateVM) ==>
                NoVM(old(backend)) && forall t :: !InFlightTask(old(backend), t)
    {
      if LiveCall(View(), a) {
        ReconcileVMKeepsInv(View(), a);
        CreateIssuedIsNew(View(), a);
        ReadyExactly(View(), a);
        PowerOnFailsExactly(View(), a);
      }
      var inFlight, err := ReconcileInFlight(a);
      if err {
        return Error;
      }
      if inFlight {
        return Pending;
      }
      var ref := Find(a);
      if !ref.Found? {
        if !a.accepted {
          return Error;
        }
        StartTask(CreateVM, "", a);
        return Pending;
      }
      if !a.nicsReadOk || ref.id !in backend.vms {
        return Error;
      }
      RecordUuids(ref.id);
      out := ReconcilePower(ref.id, a);
    }

    method Destroy(a: Answers) returns (out: Outcome)
      modifies this
      ensures (View(), out) == DestroyVM(old(View()), a)
      ensures Inv(old(View())) && Faithful(old(View()), a) ==>
                && (deleting ==> Inv(View())) && EndsInOrder(old(backend), backend)
                && (out == NotFound <==> Quiet(old(backend)))
      ensures out == NotFound ==> old(biosUUID) != "" ==> a.byUUID != Failed
    {
      NotFoundExactly(View(), a);
      if Inv(View()) && Faithful(View(), a) {
        DestroyVMKeepsInv(View(), a);
        VmDestroy.DeleteOnlyWhenNotOn(View(), a);
        if DestroyVM(View(), a).1 == NotFound { VmDestroy.NotFoundMeansGone(View(), a); }
        if Quiet(View().b) { DestroyIdle(View(), a); }
      }
      var inFlight, err := ReconcileInFlight(a);
      if err {
        return Error;
      }
      if inFlight {
        return Pending;
      }
      var ref := Find(a);
      if !ref.Found? {
        return if ref.Missing? then NotFound else Error;
      }
      if !a.powerReadOk || ref.id !in backend.vms {
        return Error;
      }
      var power := GetPowerState(backend.vms[ref.id].status);
      if power.None? || !a.accepted {
        return Error;
      }
      if power.value == PoweredOn {
        StartTask(PowerOffVM, ref.id, a);
        return Pending;
      }
      StartTask(DeleteVM, ref.id, a);
      return Pending;
    }

    // vmReconciler.reconcileNormal, from "Get or create the VM" on.
    method ReconcileNormally(a: Answers, again: Answers) returns (out: Outcome)
      modifies this
      ensures (View(), out) == ReconcileNormal(old(View()), a, again)
      ensures LiveCall(old(View()), a) && Faithful(ReconcileVM(old(View()), a).0, again) ==> Inv(View())
      ensures LiveCall(old(View()), a) ==>
                (out.Ready? <==> && Idle(old(backend)) && a.nicsReadOk && a.powerReadOk && a.uuidReadOk
                                 && exists id :: id in old(backend).vms && old(backend).vms[id].status == STARTED
                                                 && old(backend).vms[id].uuid != "")
      ensures LiveCall(old(View()), a) && out.Ready? ==>
                backend == old(backend) && biosUUID == out.uuid && uid in backend.vms && backend.vms[uid].uuid == biosUUID
    {
      if LiveCall(View(), a) && Faithful(ReconcileVM(View(), a).0, again) {
        ReconcileNormalKeepsInv(View(), a, again);
      }
      if LiveCall(View(), a) { NormalReadyExactly(View(), a, again); }
      out := Reconcile(a);
      if out == PoweringOnFailed {
        var _ := Destroy(again);
        uid := "";
        biosUUID := "";
        return Error;
      }
      if !out.Ready? {
        return out;
      }
      if out.uuid == "" {
        return Error;
      }
      biosUUID := out.uuid;
    }
  }

  lemma CreateIssuedIsNew(s: Sys, a: Answers)
    requires LiveCall(s, a)
    ensures Issued(s.b, ReconcileVM(s, a).0.b, CreateVM) ==> NoVM(s.b) && forall t :: !InFlightTask(s.b, t)
  {
    if IssuesCreate(s, a) { CreateIssuedWhenNone(s, a); }
  }
}
