// What each call of VmLifecycle answers and does, told from what the backend holds;
// and that calls for which all goes well bring a VM up.
module VmProgress {
  import opened Wrappers
  import opened VmLifecycle
  import opened VmDestroy

  // Nothing is in flight.
  ghost predicate Idle(b: Backend) {
    forall t :: !InFlightTask(b, t)
  }

  ghost predicate HasVM(b: Backend, status: VmStatus) {
    exists id :: id in b.vms && b.vms[id].status == status
  }

  ghost predicate TrueCall(s: Sys, a: Answers) {
    Inv(s) && Faithful(s, a)
  }

  // ---------------------------------------------------------------- ReconcileVM

  // While a task is in flight a call changes nothing; it is an error when the task
  // is in a state that the code does not know.
  lemma CallInFlight(s: Sys, a: Answers)
    requires TrueCall(s, a) && !Idle(s.b)
    ensures s.o.taskRef in s.b.tasks
    ensures var out := if s.b.tasks[s.o.taskRef].state == OtherState then Error else Pending;
            ReconcileVM(s, a) == (s, out) && DestroyVM(s, a) == (s, out)
  {
    var t :| InFlightTask(s.b, t);
    assert t == s.o.taskRef;
  }

  lemma IdleProceeds(s: Sys, a: Answers)
    requires TrueCall(s, a) && Idle(s.b)
    ensures ReconcileInFlightTask(s.o, a) == (s.o.(taskRef := ""), Proceed)
  {
    assert s.o.taskRef != "" ==> !InFlightTask(s.b, s.o.taskRef);
  }

  // Without a VM a call asks for one to be made, and tracks the request.
  lemma CallWithoutVM(s: Sys, a: Answers)
    requires TrueCall(s, a) && Idle(s.b) && NoVM(s.b) && !s.o.deleting
    ensures ReconcileVM(s, a)
            == if a.accepted
               then (Sys(s.o.(taskRef := a.newTask),
                         s.b.(tasks := s.b.tasks[a.newTask := Task(CreateVM, "", WAITING, false)])), Pending)
               else (s.(o := s.o.(taskRef := "")), Error)
  {
    IdleProceeds(s, a);
    FindIsExact(s, a);
  }

  lemma TheVMIsFound(s: Sys, a: Answers, id: Id)
    requires TrueCall(s, a) && id in s.b.vms
    ensures FindVM(s.o, a) == Found(id)
  {
    FindIsExact(s, a);
  }

  // The object once the VM has been found, and its ids recorded.
  function Recorded(o: VmObject, id: Id, vm: BackendVM): VmObject {
    VmObject("", id, if vm.uuid != "" then vm.uuid else o.biosUUID, o.deleting)
  }

  // A VM whose NICs cannot be read is left alone.
  lemma CallWithoutNics(s: Sys, a: Answers, id: Id)
    requires TrueCall(s, a) && Idle(s.b) && id in s.b.vms && !a.nicsReadOk
    ensures ReconcileVM(s, a) == (s.(o := s.o.(taskRef := "")), Error)
  {
    IdleProceeds(s, a);
    TheVMIsFound(s, a, id);
  }

  // A VM that is on is ready, and nothing is done to it; one that is neither on nor
  // off, or whose power status cannot be read, is an error.
  lemma CallWithVM(s: Sys, a: Answers, id: Id)
    requires TrueCall(s, a) && Idle(s.b) && id in s.b.vms && a.nicsReadOk
    requires !a.powerReadOk || s.b.vms[id].status != STOPPED
    ensures ReconcileVM(s, a)
            == (s.(o := Recorded(s.o, id, s.b.vms[id])),
                if a.powerReadOk && s.b.vms[id].status == STARTED
                then Ready(if a.uuidReadOk then s.b.vms[id].uuid else "") else Error)
  {
    IdleProceeds(s, a);
    TheVMIsFound(s, a, id);
  }

  // The effect of a task that powers the VM on, by the time the call has waited.
  function PoweredOnBy(b: Backend, id: Id, a: Answers): Backend
    requires id in b.vms
  {
    match a.waited
    case None => b.(tasks := b.tasks[a.newTask := Task(PowerOnVM, id, WAITING, false)])
    case Some((state, applied)) =>
      Backend(if applied then b.vms[id := b.vms[id].(status := STARTED)] else b.vms,
              b.tasks[a.newTask := Task(PowerOnVM, id, state, applied)])
  }

  // A VM that is off is powered on when the host can be read and has the memory, and
  // the request, once accepted, is tracked and waited for.
  lemma CallWithVMOff(s: Sys, a: Answers, id: Id)
    requires TrueCall(s, a) && Idle(s.b) && id in s.b.vms && a.nicsReadOk && a.powerReadOk
    requires s.b.vms[id].status == STOPPED
    ensures var o := Recorded(s.o, id, s.b.vms[id]);
            ReconcileVM(s, a)
            == if !a.hostReadOk then (s.(o := o), Pending)
               else if !a.enoughMemory then (s.(o := o), PoweringOnFailed)
               else if !a.accepted then (s.(o := o), Error)
               else (Sys(o.(taskRef := a.newTask), PoweredOnBy(s.b, id, a)),
                     if a.waited.Some? && a.waited.value.0 == ERROR then PoweringOnFailed else Pending)
  {
    IdleProceeds(s, a);
    TheVMIsFound(s, a, id);
    PowerOnEnds(s.(o := Recorded(s.o, id, s.b.vms[id])), id, a);
  }

  lemma PowerOnEnds(s: Sys, id: Id, a: Answers)
    requires id in s.b.vms
    ensures PowerOnAndWait(s, id, a)
            == (Sys(s.o.(taskRef := a.newTask), PoweredOnBy(s.b, id, a)),
                if a.waited.Some? && a.waited.value.0 == ERROR then PoweringOnFailed else Pending)
  {
    var tasks := s.b.tasks;
    if a.waited.Some? {
      var (state, applied) := a.waited.value;
      assert tasks[a.newTask := Task(PowerOnVM, id, WAITING, false)][a.newTask := Task(PowerOnVM, id, state, applied)]
             == tasks[a.newTask := Task(PowerOnVM, id, state, applied)];
    }
  }

  // The answers, each exactly. Ready carries the BIOS UUID if that could be read.
  lemma ReadyExactly(s: Sys, a: Answers)
    requires TrueCall(s, a) && !s.o.deleting
    ensures ReconcileVM(s, a).1.Ready?
            <==> Idle(s.b) && a.nicsReadOk && a.powerReadOk && HasVM(s.b, STARTED)
    ensures ReconcileVM(s, a).1.Ready? ==> forall id :: id in s.b.vms ==>
              ReconcileVM(s, a).1.uuid == if a.uuidReadOk then s.b.vms[id].uuid else ""
  {
    AnswerCases(s, a);
  }

  lemma PowerOnFailsExactly(s: Sys, a: Answers)
    requires TrueCall(s, a) && !s.o.deleting
    ensures ReconcileVM(s, a).1 == PoweringOnFailed
            <==> && Idle(s.b) && a.nicsReadOk && a.powerReadOk && a.hostReadOk && HasVM(s.b, STOPPED)
                 && (!a.enoughMemory || (a.accepted && a.waited.Some? && a.waited.value.0 == ERROR))
  {
    AnswerCases(s, a);
  }

  lemma PendingExactly(s: Sys, a: Answers)
    requires TrueCall(s, a) && !s.o.deleting
    ensures ReconcileVM(s, a).1 == Pending
            <==> || (exists t :: InFlightTask(s.b, t) && s.b.tasks[t].state != OtherState)
                 || (Idle(s.b) && NoVM(s.b) && a.accepted)
                 || (Idle(s.b) && HasVM(s.b, STOPPED) && a.nicsReadOk && a.powerReadOk
                     && (!a.hostReadOk
                         || (a.enoughMemory && a.accepted && !(a.waited.Some? && a.waited.value.0 == ERROR))))
    ensures ReconcileVM(s, a).1 != NotFound
  {
    AnswerCases(s, a);
  }

  // The cases above, for whichever VM there is.
  lemma AnswerCases(s: Sys, a: Answers)
    requires TrueCall(s, a) && !s.o.deleting
    ensures var out := ReconcileVM(s, a).1;
            if !Idle(s.b) then
              (out == Pending || out == Error)
              && (out == Pending <==> exists t :: InFlightTask(s.b, t) && s.b.tasks[t].state != OtherState)
            else if NoVM(s.b) then out == if a.accepted then Pending else Error
            else exists id :: id in s.b.vms && s.b.vms.Keys == {id} && out == AnswerFor(s.b.vms[id], a)
  {
    if !Idle(s.b) {
      CallInFlight(s, a);
      assert forall t :: InFlightTask(s.b, t) ==> t == s.o.taskRef;
    } else if NoVM(s.b) {
      CallWithoutVM(s, a);
    } else {
      var id :| id in s.b.vms;
      assert s.b.vms.Keys == {id};
      if !a.nicsReadOk {
        CallWithoutNics(s, a, id);
      } else if a.powerReadOk && s.b.vms[id].status == STOPPED {
        CallWithVMOff(s, a, id);
      } else {
        CallWithVM(s, a, id);
      }
    }
  }

  function AnswerFor(vm: BackendVM, a: Answers): Outcome {
    if !a.nicsReadOk || !a.powerReadOk then Error
    else if vm.status == STARTED then Ready(if a.uuidReadOk then vm.uuid else "")
    else if vm.status != STOPPED then Error
    else if !a.hostReadOk then Pending
    else if !a.enoughMemory then PoweringOnFailed
    else if !a.accepted then Error
    else if a.waited.Some? && a.waited.value.0 == ERROR then PoweringOnFailed
    else Pending
  }

  // The controller says ready exactly when the VM is on, its reads succeed, and it
  // has a BIOS UUID, which is then recorded.
  lemma NormalReadyExactly(s: Sys, a: Answers, again: Answers)
    requires TrueCall(s, a) && !s.o.deleting
    ensures var (s', out) := ReconcileNormal(s, a, again);
            && (out.Ready? <==> && Idle(s.b) && a.nicsReadOk && a.powerReadOk && a.uuidReadOk
                                && exists id :: id in s.b.vms && s.b.vms[id].status == STARTED && s.b.vms[id].uuid != "")
            && (out.Ready? ==> s'.b == s.b && s'.o.biosUUID == out.uuid && s'.o.taskRef == ""
                               && forall id :: id in s.b.vms ==> out.uuid == s.b.vms[id].uuid && s'.o.uid == id)
  {
    AnswerCases(s, a);
    if Idle(s.b) && HasVM(s.b, STARTED) && a.nicsReadOk && a.powerReadOk {
      var id :| id in s.b.vms && s.b.vms[id].status == STARTED;
      CallWithVM(s, a, id);
    }
  }

  // ------------------------------------------------------------------ DestroyVM

  // Whatever the lookups answer, "notfound" is said exactly when no task is seen in
  // flight and the lookups name no VM, the one by BIOS UUID without an error.
  lemma NotFoundExactly(s: Sys, a: Answers)
    ensures DestroyVM(s, a).1 == NotFound
            <==> && (s.o.taskRef == "" || a.task.NoTaskInfo? || a.task.state.Terminal())
                 && NamesNoVM(s.o, a) && (s.o.biosUUID != "" ==> a.byUUID != Failed)
  {
  }

  // With true lookups: without a VM, "notfound"; otherwise the VM is asked to be
  // powered off if it is on, and to be deleted if it is not.
  lemma DestroyIdle(s: Sys, a: Answers)
    requires TrueCall(s, a) && Idle(s.b)
    ensures NoVM(s.b) ==> DestroyVM(s, a) == (s.(o := s.o.(taskRef := "")), NotFound)
    ensures forall id :: id in s.b.vms ==>
              DestroyVM(s, a)
              == if a.powerReadOk && a.accepted && s.b.vms[id].status != OtherStatus
                 then (Sys(s.o.(taskRef := a.newTask),
                           s.b.(tasks := s.b.tasks[a.newTask :=
                             Task(if s.b.vms[id].status == STARTED then PowerOffVM else DeleteVM, id, WAITING, false)])),
                       Pending)
                 else (s.(o := s.o.(taskRef := "")), Error)
  {
    IdleProceeds(s, a);
    FindIsExact(s, a);
    forall id | id in s.b.vms ensures FindVM(s.o, a) == Found(id) { TheVMIsFound(s, a, id); }
  }

  // ------------------------------------------------------------------ bringing up

  // Every VM is on or off, and has a BIOS UUID.
  predicate Usable(b: Backend) {
    forall id :: id in b.vms ==> b.vms[id].status in {STARTED, STOPPED} && b.vms[id].uuid != ""
  }

  ghost predicate UpAnswers(s: Sys, a: Answers) {
    Faithful(s, a) && AllGoesWell(a) && a.uuidReadOk && (a.waited.Some? ==> a.waited.value.0 == FINISHED)
  }

  // One reconcile for which all goes well, and then the end of what is in flight; a
  // create makes VM `vm` under `id`.
  ghost predicate UpRoundBy(s: Sys, s': Sys, out: Outcome, a: Answers, again: Answers, id: Id, vm: BackendVM) {
    && UpAnswers(s, a) && NewVM(s.b, id, vm) && vm.status in {STARTED, STOPPED} && vm.uuid != ""
    && out == ReconcileNormal(s, a, again).1 && s' == Complete(ReconcileNormal(s, a, again).0, id, vm)
  }

  ghost predicate UpRound(s: Sys, s': Sys, out: Outcome) {
    exists a, again, id, vm :: UpRoundBy(s, s', out, a, again, id, vm)
  }

  // What is left to do: make a VM, and power it on.
  function UpRank(b: Backend): nat {
    if NoVM(b) then 2 else if exists id :: id in b.vms && b.vms[id].status == STOPPED then 1 else 0
  }

  ghost predicate UpInv(s: Sys) {
    Inv(s) && !s.o.deleting && Usable(s.b) && KnownTask(s)
  }

  lemma CompleteKeepsUp(s: Sys, id: Id, vm: BackendVM)
    requires UpInv(s) && NewVM(s.b, id, vm) && vm.status in {STARTED, STOPPED} && vm.uuid != ""
    ensures UpInv(Complete(s, id, vm)) && Idle(Complete(s, id, vm).b)
  {
    if InFlightTask(s.b, s.o.taskRef) {
      var t := s.o.taskRef;
      EnvKeepsInv(s, TaskStep(t, FINISHED, !s.b.tasks[t].applied, id, vm));
    }
    assert forall t :: InFlightTask(s.b, t) ==> t == s.o.taskRef;
  }

  // A round without a VM makes one; with one that is off, powers it on; with one that
  // is on, answers ready.
  lemma RoundWithoutVM(s: Sys, a: Answers, again: Answers, id: Id, vm: BackendVM)
    requires UpInv(s) && Idle(s.b) && NoVM(s.b) && UpAnswers(s, a) && NewVM(s.b, id, vm)
    ensures var (s1, out) := ReconcileNormal(s, a, again);
            && out == Pending && UpInv(s1) && Complete(s1, id, vm).b.vms == map[id := vm]
  {
    CallWithoutVM(s, a);
    ReconcileVMKeepsInv(s, a);
  }

  lemma RoundWithVMOff(s: Sys, a: Answers, again: Answers, i: Id, id: Id, vm: BackendVM)
    requires UpInv(s) && Idle(s.b) && i in s.b.vms && s.b.vms[i].status == STOPPED && UpAnswers(s, a)
    ensures var (s1, out) := ReconcileNormal(s, a, again);
            && out == Pending && UpInv(s1) && s1.b.vms.Keys == s.b.vms.Keys
            && Complete(s1, id, vm).b.vms == s.b.vms[i := s.b.vms[i].(status := STARTED)]
  {
    CallWithVMOff(s, a, i);
    ReconcileVMKeepsInv(s, a);
  }

  lemma RoundWithVMOn(s: Sys, a: Answers, again: Answers, i: Id, id: Id, vm: BackendVM)
    requires UpInv(s) && Idle(s.b) && i in s.b.vms && s.b.vms[i].status == STARTED && UpAnswers(s, a)
    ensures var (s1, out) := ReconcileNormal(s, a, again);
            && out == Ready(s.b.vms[i].uuid) && UpInv(s1) && s1.b == s.b && Complete(s1, id, vm) == s1
            && s1.o.biosUUID == s.b.vms[i].uuid && s1.o.uid == i
  {
    CallWithVM(s, a, i);
    ReconcileVMKeepsInv(s, a);
  }

  lemma OneUpRound(s: Sys, s': Sys, out: Outcome)
    requires UpInv(s) && UpRound(s, s', out)
    ensures UpInv(s') && Idle(s'.b)
    ensures if !Idle(s.b) then out == Pending
            else && (out.Ready? <==> UpRank(s.b) == 0)
                 && UpRank(s'.b) <= if UpRank(s.b) == 0 then 0 else UpRank(s.b) - 1
    ensures out.Ready? ==> s'.b.vms.Keys == {s'.o.uid} && s'.b.vms[s'.o.uid] == BackendVM(out.uuid, STARTED)
                           && s'.o.biosUUID == out.uuid
  {
    var a, again, id, vm :| UpRoundBy(s, s', out, a, again, id, vm);
    if !Idle(s.b) {
      CallInFlight(s, a);
      CompleteKeepsUp(s, id, vm);
    } else if NoVM(s.b) {
      RoundWithoutVM(s, a, again, id, vm);
      CompleteKeepsUp(ReconcileNormal(s, a, again).0, id, vm);
      assert id in s'.b.vms && s'.b.vms.Keys == {id};
    } else {
      var i :| i in s.b.vms;
      UpRoundWithVM(s, s', out, a, again, i, id, vm);
    }
  }

  lemma UpRoundWithVM(s: Sys, s': Sys, out: Outcome, a: Answers, again: Answers, i: Id, id: Id, vm: BackendVM)
    requires UpInv(s) && Idle(s.b) && i in s.b.vms && UpRoundBy(s, s', out, a, again, id, vm)
    ensures UpInv(s') && Idle(s'.b) && UpRank(s'.b) == 0
    ensures if UpRank(s.b) == 0 then out.Ready? else UpRank(s.b) == 1 && out == Pending
    ensures out.Ready? ==> s'.b.vms.Keys == {s'.o.uid} && s'.b.vms[s'.o.uid] == BackendVM(out.uuid, STARTED)
                           && s'.o.biosUUID == out.uuid
  {
    assert s.b.vms.Keys == {i};
    if s.b.vms[i].status == STOPPED {
      RoundWithVMOff(s, a, again, i, id, vm);
      CompleteKeepsUp(ReconcileNormal(s, a, again).0, id, vm);
      assert i in s'.b.vms;
    } else {
      RoundWithVMOn(s, a, again, i, id, vm);
    }
  }

  // There is always such a round.
  lemma UpRoundIsPossible(s: Sys) returns (s': Sys, out: Outcome)
    requires UpInv(s)
    ensures UpRound(s, s', out)
  {
    var a := TrueAnswers(s);
    var id := FreshString(s.b.vms.Keys);
    var vm := BackendVM("u", STOPPED);
    var s1;
    s1, out := ReconcileNormal(s, a, a).0, ReconcileNormal(s, a, a).1;
    s' := Complete(s1, id, vm);
    assert UpRoundBy(s, s', out, a, a, id, vm);
  }

  ghost predicate AreUpRounds(states: seq<Sys>, outs: seq<Outcome>) {
    && |states| == |outs| + 1
    && forall i :: 0 <= i < |outs| ==> UpRoundAt(states, outs, i)
  }

  ghost predicate UpRoundAt(states: seq<Sys>, outs: seq<Outcome>, i: nat)
    requires |states| == |outs| + 1 && i < |outs|
  {
    UpRound(states[i], states[i + 1], outs[i])
  }

  lemma {:induction false} UpRanksCountDown(states: seq<Sys>, outs: seq<Outcome>, i: nat)
    requires AreUpRounds(states, outs) && i <= |outs| && UpInv(states[0])
    ensures UpInv(states[i]) && (i >= 1 ==> Idle(states[i].b))
    ensures i >= 1 ==> UpRank(states[i].b) <= if i <= 3 then 3 - i else 0
    ensures i >= 1 && Idle(states[0].b) ==> UpRank(states[i].b) <= if i <= 2 then 2 - i else 0
  {
    if i > 0 {
      UpRanksCountDown(states, outs, i - 1);
      assert UpRoundAt(states, outs, i - 1);
      OneUpRound(states[i - 1], states[i], outs[i - 1]);
    }
  }

  // From any state of a live object, the fourth reconcile for which all goes well
  // answers ready at the latest, and the third from a state with nothing in flight,
  // such as that of a new object; so does every later one. Then there is one VM, it
  // is on, and its ids are recorded.
  lemma ReadyIsReached(states: seq<Sys>, outs: seq<Outcome>, i: nat)
    requires AreUpRounds(states, outs) && i < |outs| && UpInv(states[0])
    ensures i >= 3 || (i >= 2 && Idle(states[0].b)) ==> outs[i].Ready?
    ensures outs[i].Ready? ==>
              var s := states[i + 1];
              s.b.vms.Keys == {s.o.uid} && s.b.vms[s.o.uid] == BackendVM(outs[i].uuid, STARTED) && s.o.biosUUID == outs[i].uuid
  {
    UpRanksCountDown(states, outs, i);
    assert UpRoundAt(states, outs, i);
    OneUpRound(states[i], states[i + 1], outs[i]);
  }
}
