// pkg/services/goclient/service.go and util.go, with the calls that
// controllers/icsvm_controller.go makes into them: one ICSVM object, the backend
// VMs made for it, and the backend tasks that its TaskRef field tracks.
module VmLifecycle {
  import opened Wrappers

  type Id = string

  // ---------------------------------------------------------------- backend

  datatype VmStatus = STARTED | STOPPED | PAUSED | RESTARTING | PENDING | OtherStatus

  datatype PowerState = PoweredOn | PoweredOff | Suspended

  datatype TaskState = WAITING | RUNNING | READY | CANCELED | FINISHED | ERROR | OtherState {
    predicate Terminal() {
      this in {CANCELED, FINISHED, ERROR}
    }
  }

  datatype TaskKind = CreateVM | PowerOnVM | PowerOffVM | DeleteVM

  // applied: the task has had its effect on the backend.
  datatype Task = Task(kind: TaskKind, target: Id, state: TaskState, applied: bool)

  datatype BackendVM = BackendVM(uuid: string, status: VmStatus)

  // The VMs that carry this ICSVM's name, and the tasks ever issued for it. Names are
  // taken to be unique in iCenter, since it is searched by the name alone.
  datatype Backend = Backend(vms: map<Id, BackendVM>, tasks: map<Id, Task>)

  // The fields of the ICSVM object that the two calls read and write.
  datatype VmObject = VmObject(taskRef: Id, uid: Id, biosUUID: string, deleting: bool)

  datatype Sys = Sys(o: VmObject, b: Backend)

  // ------------------------------------------- what the backend answers a call

  datatype Lookup = Found(id: Id) | Missing | Failed

  datatype TaskAnswer = TaskIs(state: TaskState) | NoTaskInfo

  datatype Answers = Answers(
    task: TaskAnswer, byUUID: Lookup, byUID: Lookup, byName: Lookup,
    uuidReadOk: bool, nicsReadOk: bool, powerReadOk: bool, hostReadOk: bool, enoughMemory: bool,
    accepted: bool, newTask: Id, waited: Option<(TaskState, bool)>)

  // Ready carries the BIOS UUID read before the power state was checked.
  datatype Outcome = Pending | Ready(uuid: string) | NotFound | PoweringOnFailed | Error

  // Lookups tell the truth, and a new task gets a new id.
  ghost predicate Faithful(s: Sys, a: Answers) {
    && (s.o.taskRef in s.b.tasks ==> a.task == TaskIs(s.b.tasks[s.o.taskRef].state))
    && UUIDLookupIsTrue(s, a.byUUID)
    && a.byUID == (if s.o.uid in s.b.vms then Found(s.o.uid) else Missing)
    && NameLookupIsTrue(s.b, a.byName)
    && a.newTask != "" && a.newTask !in s.b.tasks
    && (a.waited.Some? ==> a.waited.value.0.Terminal() && (a.waited.value.0 == FINISHED ==> a.waited.value.1))
  }

  ghost predicate UUIDLookupIsTrue(s: Sys, l: Lookup) {
    match l
    case Found(id) => id in s.b.vms && s.b.vms[id].uuid == s.o.biosUUID
    case Missing => forall id :: id in s.b.vms ==> s.b.vms[id].uuid != s.o.biosUUID
    case Failed => false
  }

  ghost predicate NameLookupIsTrue(b: Backend, l: Lookup) {
    match l
    case Found(id) => id in b.vms
    case Missing => NoVM(b)
    case Failed => false
  }

  // --------------------------------------------------------- the code, on values

  function GetPowerState(status: VmStatus): Option<PowerState> {
    match status
    case STARTED => Some(PoweredOn)
    case STOPPED => Some(PoweredOff)
    case PAUSED | RESTARTING | PENDING => Some(Suspended)
    case OtherStatus => None
  }

  // By BIOS UUID when there is one; otherwise by id, and failing that by name. A
  // failed lookup by name counts as not found.
  function FindVM(o: VmObject, a: Answers): Lookup {
    if o.biosUUID != "" then a.byUUID
    else if o.uid != "" && a.byUID.Found? && a.byUID.id != "" then a.byUID
    else if a.byName.Found? && a.byName.id != "" then a.byName
    else Missing
  }

  function GetTask(o: VmObject, a: Answers): Option<TaskState> {
    if o.taskRef == "" || a.task.NoTaskInfo? then None else Some(a.task.state)
  }

  datatype Gate = Proceed | InFlight | UnknownTask

  // reconcileInFlightTask: no task or a finished one clears TaskRef.
  function ReconcileInFlightTask(o: VmObject, a: Answers): (VmObject, Gate) {
    match GetTask(o, a)
    case None => (o.(taskRef := ""), Proceed)
    case Some(WAITING) | Some(RUNNING) | Some(READY) => (o, InFlight)
    case Some(CANCELED) | Some(FINISHED) | Some(ERROR) => (o.(taskRef := ""), Proceed)
    case Some(OtherState) => (o, UnknownTask)
  }

  // Issue a backend task and track it.
  function Issue(s: Sys, kind: TaskKind, target: Id, a: Answers): Sys {
    Sys(s.o.(taskRef := a.newTask),
        s.b.(tasks := s.b.tasks[a.newTask := Task(kind, target, WAITING, false)]))
  }

  function WithUuids(o: VmObject, id: Id, vm: BackendVM): VmObject {
    o.(uid := if id != "" then id else o.uid,
       biosUUID := if vm.uuid != "" then vm.uuid else o.biosUUID)
  }

  function PowerOnAndWait(s: Sys, id: Id, a: Answers): (Sys, Outcome) {
    var s1 := Issue(s, PowerOnVM, id, a);
    if a.waited.None? then (s1, Pending)
    else
      var (state, applied) := a.waited.value;
      var s2 := s1.(b := TaskEnds(s1.b, a.newTask, state, applied, "", BackendVM("", STOPPED)));
      (s2, if state == ERROR then PoweringOnFailed else Pending)
  }

  function ReconcilePowerState(s: Sys, id: Id, a: Answers): (Sys, Outcome) {
    if !a.powerReadOk || id !in s.b.vms then (s, Error)
    else match GetPowerState(s.b.vms[id].status)
      case Some(PoweredOff) =>
        if !a.hostReadOk then (s, Pending)
        else if !a.enoughMemory then (s, PoweringOnFailed)
        else if !a.accepted then (s, Error)
        else PowerOnAndWait(s, id, a)
      case Some(PoweredOn) => (s, Ready(if a.uuidReadOk then s.b.vms[id].uuid else ""))
      case _ => (s, Error)
  }

  function ReconcileVM(s: Sys, a: Answers): (Sys, Outcome) {
    var (o, gate) := ReconcileInFlightTask(s.o, a);
    var s1 := s.(o := o);
    if gate == InFlight then (s1, Pending)
    else if gate == UnknownTask then (s1, Error)
    else match FindVM(o, a)
      case Missing | Failed =>
        if a.accepted then (Issue(s1, CreateVM, "", a), Pending) else (s1, Error)
      case Found(id) =>
        if !a.nicsReadOk || id !in s.b.vms then (s1, Error)
        else ReconcilePowerState(s1.(o := WithUuids(o, id, s.b.vms[id])), id, a)
  }

  function DestroyVM(s: Sys, a: Answers): (Sys, Outcome) {
    var (o, gate) := ReconcileInFlightTask(s.o, a);
    var s1 := s.(o := o);
    if gate == InFlight then (s1, Pending)
    else if gate == UnknownTask then (s1, Error)
    else match FindVM(o, a)
      case Missing => (s1, NotFound)
      case Failed => (s1, Error)
      case Found(id) =>
        if !a.powerReadOk || id !in s.b.vms || GetPowerState(s.b.vms[id].status).None? || !a.accepted then (s1, Error)
        else if GetPowerState(s.b.vms[id].status) == Some(PoweredOn) then (Issue(s1, PowerOffVM, id, a), Pending)
        else (Issue(s1, DeleteVM, id, a), Pending)
  }

  // Both ids cleared.
  function Forgotten(s: Sys): Sys {
    s.(o := s.o.(uid := "", biosUUID := ""))
  }

  // vmReconciler.reconcileNormal from "Get or create the VM" on: a power-on failure
  // calls DestroyVM, which asks for the VM to be deleted or, if it is on, powered
  // off, and forgets the VM whatever came of that.
  function ReconcileNormal(s: Sys, a: Answers, again: Answers): (Sys, Outcome) {
    var (s1, out) := ReconcileVM(s, a);
    match out
    case PoweringOnFailed =>
      (Forgotten(DestroyVM(s1, again).0), Error)
    case Ready(uuid) =>
      if uuid == "" then (s1, Error)
      else (s1.(o := s1.o.(biosUUID := uuid)), out)
    case _ => (s1, out)
  }

  // ------------------------------------------------------------- the backend

  // A task reaches `state`, having its effect now when `apply` holds. A create
  // makes VM `vm` under id `id`.
  function TaskEnds(b: Backend, t: Id, state: TaskState, apply: bool, id: Id, vm: BackendVM): Backend {
    if t !in b.tasks then b
    else
      var task := b.tasks[t];
      var tasks := b.tasks[t := task.(state := state, applied := task.applied || apply)];
      if !apply then Backend(b.vms, tasks)
      else match task.kind
        case CreateVM => Backend(b.vms[id := vm], tasks)
        case PowerOnVM => Backend(SetStatus(b.vms, task.target, STARTED), tasks)
        case PowerOffVM => Backend(SetStatus(b.vms, task.target, STOPPED), tasks)
        case DeleteVM => Backend(b.vms - {task.target}, tasks)
  }

  function SetStatus(vms: map<Id, BackendVM>, id: Id, status: VmStatus): map<Id, BackendVM> {
    if id in vms then vms[id := vms[id].(status := status)] else vms
  }

  // What the backend and the user do between reconciles.
  datatype EnvStep =
    | TaskStep(t: Id, state: TaskState, apply: bool, id: Id, vm: BackendVM)
    | StatusChange(id: Id, status: VmStatus)
    | MarkDeleted

  // A task in flight may move on; it has its effect at most once, and before it
  // finishes. A VM's power status may change at any time, but nothing outside
  // removes a VM or makes one of this name.
  predicate EnvAllows(s: Sys, e: EnvStep) {
    match e
    case TaskStep(t, state, apply, id, vm) =>
      && t in s.b.tasks && !s.b.tasks[t].state.Terminal()
      && (apply ==> !s.b.tasks[t].applied)
      && (state == FINISHED ==> apply || s.b.tasks[t].applied)
      && id != "" && id !in s.b.vms
    case StatusChange(id, status) => id in s.b.vms
    case MarkDeleted => true
  }

  function EnvApply(s: Sys, e: EnvStep): Sys {
    match e
    case TaskStep(t, state, apply, id, vm) => s.(b := TaskEnds(s.b, t, state, apply, id, vm))
    case StatusChange(id, status) => s.(b := s.b.(vms := SetStatus(s.b.vms, id, status)))
    case MarkDeleted => s.(o := s.o.(deleting := true))
  }

  // ----------------------------------------------------------- the invariant

  predicate InFlightTask(b: Backend, t: Id) {
    t in b.tasks && !b.tasks[t].state.Terminal()
  }

  // Only the tracked task can be in flight.
  ghost predicate OnlyTrackedInFlight(s: Sys) {
    && (s.o.taskRef != "" ==> s.o.taskRef in s.b.tasks)
    && "" !in s.b.tasks
    && forall t :: InFlightTask(s.b, t) ==> t == s.o.taskRef
  }

  predicate AtMostOneVM(b: Backend) {
    forall i, j :: i in b.vms && j in b.vms ==> i == j
  }

  predicate TaskOfKind(b: Backend, t: Id, kind: TaskKind) {
    InFlightTask(b, t) && b.tasks[t].kind == kind
  }

  predicate NoVM(b: Backend) {
    forall i :: i !in b.vms
  }

  // No VM, none being made, and nothing else in flight.
  ghost predicate Quiet(b: Backend) {
    NoVM(b) && "" !in b.tasks && forall t :: !InFlightTask(b, t)
  }

  ghost predicate Inv(s: Sys) {
    && OnlyTrackedInFlight(s)
    && AtMostOneVM(s.b) && "" !in s.b.vms
    // A pending create has no VM beside it, and nothing remembers an older one.
    && (forall t :: TaskOfKind(s.b, t, CreateVM) ==>
          s.o.biosUUID == "" && (!s.b.tasks[t].applied ==> NoVM(s.b)))
    // A remembered BIOS UUID is the VM's; unless the object is being deleted,
    // the VM is there and stays.
    && (s.o.biosUUID != "" ==> forall i :: i in s.b.vms ==> s.b.vms[i].uuid == s.o.biosUUID)
    && (s.o.biosUUID != "" && !s.o.deleting ==>
          !NoVM(s.b) && forall t :: !TaskOfKind(s.b, t, DeleteVM))
  }

  const NEW_OBJECT := VmObject("", "", "", false)

  lemma InitInv()
    ensures Inv(Sys(NEW_OBJECT, Backend(map[], map[])))
  {
  }

  lemma QuietIsNew(b: Backend)
    requires Quiet(b)
    ensures Inv(Sys(NEW_OBJECT, b))
  {
  }

  // Nothing happens in a quiet backend.
  lemma QuietStays(o: VmObject, b: Backend, e: EnvStep)
    requires Quiet(b) && !e.MarkDeleted?
    ensures !EnvAllows(Sys(o, b), e)
  {
    if e.TaskStep? { assert !InFlightTask(b, e.t); }
  }

  lemma EnvKeepsInv(s: Sys, e: EnvStep)
    requires Inv(s) && EnvAllows(s, e)
    ensures Inv(EnvApply(s, e))
  {
    var s' := EnvApply(s, e);
    if e.TaskStep? {
      assert InFlightTask(s.b, e.t) && TaskOfKind(s.b, e.t, s.b.tasks[e.t].kind);
    }
    assert forall t :: InFlightTask(s'.b, t) ==> InFlightTask(s.b, t);
    assert forall t, k :: TaskOfKind(s'.b, t, k) ==> TaskOfKind(s.b, t, k);
    if s'.o.biosUUID != "" && !s'.o.deleting {
      var i :| i in s.b.vms;
      assert i in s'.b.vms;
    }
  }

  // The object after the task gate, when it lets the call proceed: nothing is
  // in flight any more.
  lemma GateOpens(s: Sys, a: Answers)
    requires OnlyTrackedInFlight(s) && Faithful(s, a)
    requires ReconcileInFlightTask(s.o, a).1 == Proceed
    ensures forall t :: !InFlightTask(s.b, t)
  {
  }

  lemma GateKeepsInv(s: Sys, a: Answers)
    requires Inv(s) && Faithful(s, a)
    ensures Inv(s.(o := ReconcileInFlightTask(s.o, a).0))
  {
  }

  // With faithful lookups the search finds a VM exactly when there is one.
  lemma FindIsExact(s: Sys, a: Answers)
    requires Inv(s) && Faithful(s, a)
    ensures var f := FindVM(s.o, a);
            && f != Failed
            && (f == Missing <==> NoVM(s.b))
            && (f.Found? ==> f.id in s.b.vms)
  {
  }

  // ------------------------------------------------------ what one call keeps

  // Issuing a task when nothing is in flight.
  lemma IssueKeepsInv(s: Sys, kind: TaskKind, target: Id, a: Answers)
    requires Inv(s) && (forall t :: !InFlightTask(s.b, t))
    requires a.newTask != "" && a.newTask !in s.b.tasks
    requires kind == CreateVM ==> NoVM(s.b) && s.o.biosUUID == ""
    requires kind == DeleteVM ==> s.o.biosUUID == "" || s.o.deleting
    ensures Inv(Issue(s, kind, target, a))
  {
    var s' := Issue(s, kind, target, a);
    forall t | InFlightTask(s'.b, t) ensures t == a.newTask {
      assert t == a.newTask || InFlightTask(s.b, t);
    }
  }

  lemma MissingMeansForgotten(s: Sys, a: Answers)
    requires Inv(s) && Faithful(s, a) && !s.o.deleting && FindVM(s.o, a) == Missing
    ensures NoVM(s.b) && s.o.biosUUID == ""
  {
  }

  lemma UuidsKeepInv(s: Sys, id: Id)
    requires Inv(s) && (forall t :: !InFlightTask(s.b, t)) && id in s.b.vms
    ensures Inv(s.(o := WithUuids(s.o, id, s.b.vms[id])))
  {
  }

  lemma PowerOnKeepsInv(s: Sys, id: Id, a: Answers)
    requires Inv(s) && (forall t :: !InFlightTask(s.b, t)) && id in s.b.vms
    requires a.newTask != "" && a.newTask !in s.b.tasks
    requires a.waited.Some? ==> a.waited.value.0.Terminal()
    ensures Inv(PowerOnAndWait(s, id, a).0)
    ensures a.waited.Some? ==> forall t :: !InFlightTask(PowerOnAndWait(s, id, a).0.b, t)
  {
    IssueKeepsInv(s, PowerOnVM, id, a);
    var s1 := Issue(s, PowerOnVM, id, a);
    var s2 := PowerOnAndWait(s, id, a).0;
    assert forall t :: InFlightTask(s1.b, t) ==> t == a.newTask;
    assert forall t :: InFlightTask(s2.b, t) ==> InFlightTask(s1.b, t);
    assert forall t, k :: TaskOfKind(s2.b, t, k) ==> TaskOfKind(s1.b, t, k);
    if s.o.biosUUID != "" && !s.o.deleting {
      assert id in s2.b.vms;
    }
  }

  lemma ForgetKeepsInv(s: Sys)
    requires Inv(s)
    ensures Inv(Forgotten(s))
  {
  }

  // The call past the gate, when the search found a VM.
  lemma FoundKeepsInv(s1: Sys, id: Id, a: Answers)
    requires Inv(s1) && !s1.o.deleting && (forall t :: !InFlightTask(s1.b, t)) && id in s1.b.vms
    requires a.newTask != "" && a.newTask !in s1.b.tasks
    requires a.waited.Some? ==> a.waited.value.0.Terminal()
    ensures var (s', out) := ReconcilePowerState(s1.(o := WithUuids(s1.o, id, s1.b.vms[id])), id, a);
            && Inv(s') && !s'.o.deleting
            && (out == PoweringOnFailed || out.Ready? ==> forall t :: !InFlightTask(s'.b, t))
  {
    UuidsKeepInv(s1, id);
    PowerOnKeepsInv(s1.(o := WithUuids(s1.o, id, s1.b.vms[id])), id, a);
  }

  lemma ReconcileVMKeepsInv(s: Sys, a: Answers)
    requires Inv(s) && !s.o.deleting && Faithful(s, a)
    ensures Inv(ReconcileVM(s, a).0)
    ensures ReconcileVM(s, a).0.o.deleting == false
    ensures ReconcileVM(s, a).1 == PoweringOnFailed || ReconcileVM(s, a).1.Ready? ==>
              forall t :: !InFlightTask(ReconcileVM(s, a).0.b, t)
  {
    GateKeepsInv(s, a);
    var (o, gate) := ReconcileInFlightTask(s.o, a);
    var s1 := s.(o := o);
    if gate == Proceed {
      GateOpens(s, a);
      FindIsExact(s, a);
      if FindVM(o, a) == Missing {
        MissingMeansForgotten(s, a);
        if a.accepted { IssueKeepsInv(s1, CreateVM, "", a); }
      } else {
        FoundKeepsInv(s1, FindVM(o, a).id, a);
      }
    }
  }

  // Issuing a power-off or a delete, for an object being deleted, or forgetting
  // the VM in the same step.
  lemma EndingKeepsInv(s1: Sys, kind: TaskKind, id: Id, a: Answers)
    requires Inv(s1) && (forall t :: !InFlightTask(s1.b, t)) && kind in {PowerOffVM, DeleteVM}
    requires a.newTask != "" && a.newTask !in s1.b.tasks
    ensures s1.o.deleting ==> Inv(Issue(s1, kind, id, a))
    ensures Inv(Forgotten(Issue(s1, kind, id, a)))
  {
    if s1.o.deleting { IssueKeepsInv(s1, kind, id, a); }
    ForgetKeepsInv(s1);
    IssueKeepsInv(Forgotten(s1), kind, id, a);
    assert Issue(Forgotten(s1), kind, id, a) == Forgotten(Issue(s1, kind, id, a));
  }

  // DestroyVM keeps the invariant for an object being deleted, and for a live
  // one as long as the VM is forgotten in the same step.
  lemma DestroyVMKeepsInv(s: Sys, a: Answers)
    requires Inv(s) && Faithful(s, a)
    ensures var s' := DestroyVM(s, a).0;
            && (s.o.deleting ==> Inv(s'))
            && Inv(Forgotten(s'))
  {
    GateKeepsInv(s, a);
    var (o, gate) := ReconcileInFlightTask(s.o, a);
    var s1 := s.(o := o);
    ForgetKeepsInv(s1);
    if gate == Proceed {
      GateOpens(s, a);
      var id := if FindVM(o, a).Found? then FindVM(o, a).id else "";
      EndingKeepsInv(s1, PowerOffVM, id, a);
      EndingKeepsInv(s1, DeleteVM, id, a);
    }
  }

  lemma ReconcileNormalKeepsInv(s: Sys, a: Answers, again: Answers)
    requires Inv(s) && !s.o.deleting && Faithful(s, a)
    requires Faithful(ReconcileVM(s, a).0, again)
    ensures Inv(ReconcileNormal(s, a, again).0)
  {
    ReconcileVMKeepsInv(s, a);
    var (s1, out) := ReconcileVM(s, a);
    if out == PoweringOnFailed {
      DestroyVMKeepsInv(s1, again);
    } else if out.Ready? {
      FindIsExact(s, a);
    }
  }

  // ------------------------------------------------------------------- runs

  datatype Step =
    | Env(e: EnvStep)
    | Reconcile(a: Answers, again: Answers)
    | Destroy(d: Answers)

  ghost predicate Allows(s: Sys, step: Step) {
    match step
    case Env(e) => EnvAllows(s, e)
    case Reconcile(a, again) => !s.o.deleting && Faithful(s, a) && Faithful(ReconcileVM(s, a).0, again)
    case Destroy(d) => s.o.deleting && Faithful(s, d)
  }

  function Take(s: Sys, step: Step): Sys {
    match step
    case Env(e) => EnvApply(s, e)
    case Reconcile(a, again) => ReconcileNormal(s, a, again).0
    case Destroy(d) => DestroyVM(s, d).0
  }

  // The states a run passes through, from a new ICSVM with no VM.
  ghost predicate IsRun(states: seq<Sys>, steps: seq<Step>) {
    && |states| == |steps| + 1
    && states[0] == Sys(NEW_OBJECT, Backend(map[], map[]))
    && forall i :: 0 <= i < |steps| ==> Allows(states[i], steps[i]) && states[i + 1] == Take(states[i], steps[i])
  }

  lemma StepKeepsInv(s: Sys, step: Step)
    requires Inv(s) && Allows(s, step)
    ensures Inv(Take(s, step))
  {
    match step
    case Env(e) => EnvKeepsInv(s, e);
    case Reconcile(a, again) => ReconcileNormalKeepsInv(s, a, again);
    case Destroy(d) => DestroyVMKeepsInv(s, d);
  }

  lemma {:induction false} RunKeepsInv(states: seq<Sys>, steps: seq<Step>, i: nat)
    requires IsRun(states, steps) && i < |states|
    ensures Inv(states[i])
  {
    if i == 0 {
      InitInv();
    } else {
      RunKeepsInv(states, steps, i - 1);
      StepKeepsInv(states[i - 1], steps[i - 1]);
    }
  }

  // ------------------------------------------------------------ main results

  // In every run there is at most one VM for the ICSVM, also after a failed
  // power-on has cleared both ids, whether or not the VM was then destroyed.
  lemma AtMostOneVMEver(states: seq<Sys>, steps: seq<Step>, i: nat)
    requires IsRun(states, steps) && i < |states|
    ensures AtMostOneVM(states[i].b)
  {
    RunKeepsInv(states, steps, i);
  }

  // In every run, all tasks ever issued other than the tracked one have ended;
  // so whatever a step issues, it issues with no other task in flight.
  lemma OneTaskInFlight(states: seq<Sys>, steps: seq<Step>, i: nat)
    requires IsRun(states, steps) && i < |states|
    ensures forall t, u :: InFlightTask(states[i].b, t) && InFlightTask(states[i].b, u) ==> t == u
    ensures forall t :: InFlightTask(states[i].b, t) ==> t == states[i].o.taskRef
  {
    RunKeepsInv(states, steps, i);
  }

  predicate IssuesCreate(s: Sys, a: Answers) {
    var b := ReconcileVM(s, a).0.b;
    a.newTask in b.tasks && b.tasks[a.newTask].kind == CreateVM
  }

  lemma CreateIssuedWhenNone(s: Sys, a: Answers)
    requires Inv(s) && Faithful(s, a) && IssuesCreate(s, a)
    ensures NoVM(s.b) && forall t :: !InFlightTask(s.b, t)
  {
    GateKeepsInv(s, a);
    if ReconcileInFlightTask(s.o, a).1 == Proceed {
      GateOpens(s, a);
      FindIsExact(s, a);
    }
  }

  // In every run, a create is issued only when the backend holds no VM for the
  // ICSVM and none is being made.
  lemma CreateOnlyWhenNone(states: seq<Sys>, steps: seq<Step>, i: nat)
    requires IsRun(states, steps) && i < |steps| && steps[i].Reconcile?
    requires IssuesCreate(states[i], steps[i].a)
    ensures NoVM(states[i].b) && forall t :: !InFlightTask(states[i].b, t)
  {
    RunKeepsInv(states, steps, i);
    CreateIssuedWhenNone(states[i], steps[i].a);
  }

  // Exactly when one call creates a VM beside an existing one, in any state with
  // one tracked task: it remembers a BIOS UUID that none of its VMs has.
  lemma DuplicateExactly(s: Sys, a: Answers)
    requires OnlyTrackedInFlight(s) && "" !in s.b.vms && Faithful(s, a) && !NoVM(s.b)
    ensures IssuesCreate(s, a)
            <==> && a.accepted && (forall t :: !InFlightTask(s.b, t))
                 && s.o.biosUUID != ""
                 && (forall i :: i in s.b.vms ==> s.b.vms[i].uuid != s.o.biosUUID)
  {
    var (o, gate) := ReconcileInFlightTask(s.o, a);
    if gate == Proceed {
      GateOpens(s, a);
    } else {
      assert InFlightTask(s.b, s.o.taskRef);
    }
  }

  // The calls of findVM do not name a VM: the lookup by BIOS UUID fails or misses
  // when there is one, and otherwise those by id, if there is one, and by name.
  predicate NamesNoVM(o: VmObject, a: Answers) {
    if o.biosUUID != "" then !a.byUUID.Found?
    else (o.uid == "" || !a.byUID.Found? || a.byUID.id == "") && (!a.byName.Found? || a.byName.id == "")
  }

  // With lookups that may fail or lie, a call creates a VM exactly when the request
  // is accepted, the task in flight is not seen, and no lookup names a VM: whatever
  // the backend holds.
  lemma LookupsCreateExactly(s: Sys, a: Answers)
    requires a.newTask != "" && a.newTask !in s.b.tasks
    ensures IssuesCreate(s, a)
            <==> && a.accepted && NamesNoVM(s.o, a)
                 && (s.o.taskRef == "" || a.task.NoTaskInfo? || a.task.state.Terminal())
  {
  }
}
