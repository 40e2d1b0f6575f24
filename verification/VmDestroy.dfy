// pkg/services/goclient/service.go, DestroyVM, called again and again while the
// backend finishes each task it issued.
module VmDestroy {
  import opened Wrappers
  import opened VmLifecycle

  // The tracked task ends successfully; a create makes VM `vm` under `id`.
  function Complete(s: Sys, id: Id, vm: BackendVM): Sys {
    if !InFlightTask(s.b, s.o.taskRef) then s
    else s.(b := TaskEnds(s.b, s.o.taskRef, FINISHED, !s.b.tasks[s.o.taskRef].applied, id, vm))
  }

  // Every VM has a power status that DestroyVM recognises.
  predicate Recognised(b: Backend) {
    forall i :: i in b.vms ==> b.vms[i].status != OtherStatus
  }

  // One call with every request accepted, then the successful end of what is in
  // flight.
  ghost predicate IsRound(s: Sys, s': Sys, out: Outcome) {
    exists a, id, vm :: RoundBy(s, s', out, a, id, vm)
  }

  ghost predicate RoundBy(s: Sys, s': Sys, out: Outcome, a: Answers, id: Id, vm: BackendVM) {
    && RoundAnswers(s, a) && NewVM(s.b, id, vm)
    && out == DestroyVM(s, a).1 && s' == Complete(DestroyVM(s, a).0, id, vm)
  }

  predicate NewVM(b: Backend, id: Id, vm: BackendVM) {
    id != "" && id !in b.vms && vm.status != OtherStatus
  }

  ghost predicate RoundAnswers(s: Sys, a: Answers) {
    Faithful(s, a) && a.powerReadOk && a.accepted
  }

  // How many rounds are left: none without a VM, one for a VM that is not on, two
  // for one that is on, and one more while a task is in flight.
  function QuietRank(b: Backend): nat {
    if NoVM(b) then 0
    else if exists i :: i in b.vms && b.vms[i].status == STARTED then 2
    else 1
  }

  function Rank(s: Sys, id: Id, vm: BackendVM): nat {
    if InFlightTask(s.b, s.o.taskRef) then 1 + QuietRank(Complete(s, id, vm).b) else QuietRank(s.b)
  }

  ghost predicate KnownTask(s: Sys) {
    InFlightTask(s.b, s.o.taskRef) ==> s.b.tasks[s.o.taskRef].state != OtherState
  }

  ghost predicate RoundInv(s: Sys) {
    Inv(s) && s.o.deleting && Recognised(s.b) && KnownTask(s)
  }

  lemma CompleteKeepsInv(s: Sys, id: Id, vm: BackendVM)
    requires RoundInv(s) && NewVM(s.b, id, vm)
    ensures RoundInv(Complete(s, id, vm))
    ensures !InFlightTask(Complete(s, id, vm).b, s.o.taskRef)
  {
    if InFlightTask(s.b, s.o.taskRef) {
      var t := s.o.taskRef;
      EnvKeepsInv(s, TaskStep(t, FINISHED, !s.b.tasks[t].applied, id, vm));
    }
  }

  // A round answers "notfound" exactly when nothing is left to do, and otherwise
  // does one unit of it.
  lemma RoundDecreases(s: Sys, a: Answers, id: Id, vm: BackendVM)
    requires RoundInv(s) && RoundAnswers(s, a)
    requires NewVM(s.b, id, vm)
    ensures var s' := Complete(DestroyVM(s, a).0, id, vm);
            && RoundInv(s') && !InFlightTask(s'.b, s'.o.taskRef)
            && (DestroyVM(s, a).1 == NotFound <==> Rank(s, id, vm) == 0)
            && (Rank(s, id, vm) > 0 ==> DestroyVM(s, a).1 == Pending && QuietRank(s'.b) == Rank(s, id, vm) - 1)
            && (Rank(s, id, vm) == 0 ==> QuietRank(s'.b) == 0)
  {
    var (s1, out) := DestroyVM(s, a);
    DestroyVMKeepsInv(s, a);
    GateKeepsInv(s, a);
    if InFlightTask(s.b, s.o.taskRef) {
      CompleteKeepsInv(s, id, vm);
    } else {
      QuietRound(s, a, id, vm);
    }
  }

  // A call with nothing in flight.
  lemma QuietCall(s: Sys, a: Answers) returns (i: Id)
    requires RoundInv(s) && RoundAnswers(s, a) && !InFlightTask(s.b, s.o.taskRef)
    ensures if NoVM(s.b) then DestroyVM(s, a) == (s.(o := s.o.(taskRef := "")), NotFound)
            else && i in s.b.vms && (forall j :: j in s.b.vms ==> j == i)
                 && DestroyVM(s, a) == (Issue(s, if s.b.vms[i].status == STARTED then PowerOffVM else DeleteVM, i, a), Pending)
  {
    FindIsExact(s, a);
    i := "";
    if !NoVM(s.b) {
      i := FindVM(s.o, a).id;
    }
  }

  // What the successful end of the issued task leaves.
  lemma IssuedTaskEnds(s: Sys, a: Answers, i: Id, id: Id, vm: BackendVM)
    requires i in s.b.vms && (forall j :: j in s.b.vms ==> j == i)
    ensures var on := s.b.vms[i].status == STARTED;
            var b' := Complete(Issue(s, if on then PowerOffVM else DeleteVM, i, a), id, vm).b;
            if on then i in b'.vms && b'.vms.Keys == {i} && b'.vms[i].status == STOPPED else NoVM(b')
  {
  }

  lemma QuietRound(s: Sys, a: Answers, id: Id, vm: BackendVM)
    requires RoundInv(s) && RoundAnswers(s, a) && !InFlightTask(s.b, s.o.taskRef)
    requires NewVM(s.b, id, vm)
    ensures var s' := Complete(DestroyVM(s, a).0, id, vm);
            && RoundInv(s') && !InFlightTask(s'.b, s'.o.taskRef)
            && (DestroyVM(s, a).1 == NotFound <==> NoVM(s.b))
            && (!NoVM(s.b) ==> DestroyVM(s, a).1 == Pending && QuietRank(s'.b) == QuietRank(s.b) - 1)
            && (NoVM(s.b) ==> NoVM(s'.b))
  {
    var i := QuietCall(s, a);
    DestroyVMKeepsInv(s, a);
    var s1 := DestroyVM(s, a).0;
    CompleteKeepsInv(s1, id, vm);
    if !NoVM(s.b) {
      IssuedTaskEnds(s, a, i, id, vm);
      var b' := Complete(s1, id, vm).b;
      assert i in s.b.vms && (s.b.vms[i].status == STARTED ==> i in b'.vms);
    }
  }

  // The outcomes of repeated rounds.
  ghost predicate AreRounds(states: seq<Sys>, outs: seq<Outcome>) {
    && |states| == |outs| + 1
    && forall i :: 0 <= i < |outs| ==> RoundAt(states, outs, i)
  }

  ghost predicate RoundAt(states: seq<Sys>, outs: seq<Outcome>, i: nat)
    requires |states| == |outs| + 1 && i < |outs|
  {
    IsRound(states[i], states[i + 1], outs[i])
  }

  lemma OneRound(s: Sys, s': Sys, out: Outcome)
    requires RoundInv(s) && IsRound(s, s', out)
    ensures RoundInv(s') && !InFlightTask(s'.b, s'.o.taskRef)
    ensures if InFlightTask(s.b, s.o.taskRef) then out == Pending
            else && (out == NotFound <==> QuietRank(s.b) == 0)
                 && QuietRank(s'.b) == if QuietRank(s.b) == 0 then 0 else QuietRank(s.b) - 1
  {
    var a, id, vm :| RoundBy(s, s', out, a, id, vm);
    RoundDecreases(s, a, id, vm);
  }

  // From any state of an object being deleted, with recognised power statuses,
  // the calls reach "notfound" no later than the fourth, and from then on every
  // call answers so; and "notfound" is the truth.
  lemma {:induction false} DestroyReachesNotFound(states: seq<Sys>, outs: seq<Outcome>, i: nat)
    requires AreRounds(states, outs) && i < |outs| && RoundInv(states[0])
    ensures i >= 3 ==> outs[i] == NotFound
    ensures outs[i] == NotFound ==> NoVM(states[i].b) && forall j :: i <= j < |outs| ==> outs[j] == NotFound
  {
    RoundsCountDown(states, outs, i);
    assert RoundAt(states, outs, i);
    OneRound(states[i], states[i + 1], outs[i]);
    if outs[i] == NotFound {
      forall j | i <= j < |outs| ensures outs[j] == NotFound {
        RoundsStayDone(states, outs, i, j);
        assert RoundAt(states, outs, j);
        OneRoundStaysDone(states[j], states[j + 1], outs[j]);
      }
    }
  }

  lemma {:induction false} RoundsCountDown(states: seq<Sys>, outs: seq<Outcome>, i: nat)
    requires AreRounds(states, outs) && i <= |outs| && RoundInv(states[0])
    ensures RoundInv(states[i])
    ensures i >= 1 ==> !InFlightTask(states[i].b, states[i].o.taskRef)
    ensures i >= 1 ==> QuietRank(states[i].b) <= if i <= 3 then 3 - i else 0
  {
    if i > 0 {
      RoundsCountDown(states, outs, i - 1);
      assert RoundAt(states, outs, i - 1);
      OneRound(states[i - 1], states[i], outs[i - 1]);
    }
  }

  ghost predicate DestroyDone(s: Sys) {
    RoundInv(s) && !InFlightTask(s.b, s.o.taskRef) && QuietRank(s.b) == 0
  }

  lemma OneRoundStaysDone(s: Sys, s': Sys, out: Outcome)
    requires DestroyDone(s) && IsRound(s, s', out)
    ensures DestroyDone(s') && out == NotFound
  {
    OneRound(s, s', out);
  }

  lemma {:induction false} RoundsStayDone(states: seq<Sys>, outs: seq<Outcome>, i: nat, j: nat)
    requires AreRounds(states, outs) && i <= j < |outs| && DestroyDone(states[i])
    ensures DestroyDone(states[j])
  {
    if j > i {
      RoundsStayDone(states, outs, i, j - 1);
      assert RoundAt(states, outs, j - 1);
      OneRoundStaysDone(states[j - 1], states[j], outs[j - 1]);
    }
  }

  // Delete is never issued to a VM observed powered on, and power-off only to
  // one that is; each goes to the VM the lookup named.
  lemma DeleteOnlyWhenNotOn(s: Sys, a: Answers)
    requires OnlyTrackedInFlight(s) && Faithful(s, a)
    ensures var s' := DestroyVM(s, a).0;
            a.newTask in s'.b.tasks ==>
              var task := s'.b.tasks[a.newTask];
              && task.target in s.b.vms && FindVM(s.o, a) == Found(task.target)
              && task.kind == (if s.b.vms[task.target].status == STARTED then PowerOffVM else DeleteVM)
  {
  }

  // NotFound means the VM is gone for good: none is left and none is coming.
  lemma NotFoundMeansGone(s: Sys, a: Answers)
    requires Inv(s) && Faithful(s, a) && DestroyVM(s, a).1 == NotFound
    ensures NoVM(s.b) && DestroyVM(s, a).0.b == s.b && forall t :: !InFlightTask(s.b, t)
  {
  }

  // ------------------------------------------------------ a power-on failure

  // The power-on-failure path ends with the VM still there, whatever became of the
  // call that is to destroy it.
  lemma PowerOnFailureLeavesVM(s: Sys, a: Answers, again: Answers)
    requires Inv(s) && !s.o.deleting && Faithful(s, a) && ReconcileVM(s, a).1 == PoweringOnFailed
    ensures !NoVM(s.b) && ReconcileNormal(s, a, again).0.b.vms.Keys == s.b.vms.Keys
  {
    FindIsExact(s, a);
    var (s1, _) := ReconcileVM(s, a);
    assert s1.b.vms.Keys == s.b.vms.Keys;
  }

  predicate AllGoesWell(a: Answers) {
    a.nicsReadOk && a.powerReadOk && a.hostReadOk && a.enoughMemory && a.accepted
  }

  predicate IssuesPowerOn(s: Sys, a: Answers, id: Id) {
    var b := ReconcileVM(s, a).0.b;
    a.newTask in b.tasks && b.tasks[a.newTask].kind == PowerOnVM && b.tasks[a.newTask].target == id
  }

  // One VM, on or off, and nothing in flight.
  ghost predicate Resting(s: Sys, id: Id) {
    && Inv(s) && (forall t :: !InFlightTask(s.b, t))
    && s.b.vms.Keys == {id} && s.b.vms[id].status in {STARTED, STOPPED}
  }

  // There are two ways to fail: too little memory leaves the VM off; a power-on task
  // that ended in an error leaves it off, or on if it had its effect all the same.
  lemma FailureLeavesResting(s: Sys, a: Answers, id: Id)
    requires Inv(s) && !s.o.deleting && Faithful(s, a) && id in s.b.vms
    requires ReconcileVM(s, a).1 == PoweringOnFailed
    ensures Resting(ReconcileVM(s, a).0, id)
  {
    ReconcileVMKeepsInv(s, a);
    FindIsExact(s, a);
    assert FindVM(s.o, a) == Found(id);
    assert s.b.vms.Keys == {id};
  }

  // The call of DestroyVM on the way out: the request that it makes, if any.
  predicate Requested(again: Answers) {
    again.powerReadOk && again.accepted
  }

  function EndingKind(s: Sys, id: Id): TaskKind
    requires id in s.b.vms
  {
    if s.b.vms[id].status == STARTED then PowerOffVM else DeleteVM
  }

  lemma DestroyOfResting(s: Sys, id: Id, again: Answers)
    requires Resting(s, id) && Faithful(s, again)
    ensures DestroyVM(s, again).0
            == if Requested(again) then Issue(s, EndingKind(s, id), id, again) else s.(o := s.o.(taskRef := ""))
  {
    FindIsExact(s, again);
    assert FindVM(s.o, again) == Found(id);
  }

  // The request has ended, with or without its effect; nothing, without a request.
  function RequestEnded(s: Sys, t: Id, state: TaskState, apply: bool): Sys {
    s.(b := TaskEnds(s.b, t, state, apply, "", BackendVM("", STOPPED)))
  }

  lemma RequestEndedKeepsInv(s: Sys, id: Id, again: Answers, state: TaskState, apply: bool)
    requires Resting(s, id) && Faithful(s, again) && state.Terminal() && (state == FINISHED ==> apply)
    ensures var s2 := Forgotten(DestroyVM(s, again).0);
            var s3 := RequestEnded(s2, again.newTask, state, apply);
            Inv(s3) && forall t :: !InFlightTask(s3.b, t)
  {
    DestroyVMKeepsInv(s, again);
    DestroyOfResting(s, id, again);
    var s2 := Forgotten(DestroyVM(s, again).0);
    if Requested(again) {
      EnvKeepsInv(s2, TaskStep(again.newTask, state, apply, id + "x", BackendVM("", STOPPED)));
    }
  }

  // What is left once the request has ended: no VM exactly when a delete had its
  // effect, and otherwise the VM, off exactly when it was off before or a power-off
  // had its effect.
  lemma WhatIsLeft(s: Sys, id: Id, again: Answers, state: TaskState, apply: bool)
    requires Resting(s, id) && Faithful(s, again) && state.Terminal() && (state == FINISHED ==> apply)
    ensures var s3 := RequestEnded(Forgotten(DestroyVM(s, again).0), again.newTask, state, apply);
            var on := s.b.vms[id].status == STARTED;
            && (NoVM(s3.b) <==> !on && Requested(again) && apply)
            && (!NoVM(s3.b) ==> && Resting(s3, id)
                                && (s3.b.vms[id].status == STOPPED <==> !on || (Requested(again) && apply)))
  {
    DestroyOfResting(s, id, again);
    RequestEndedKeepsInv(s, id, again, state, apply);
    var s3 := RequestEnded(Forgotten(DestroyVM(s, again).0), again.newTask, state, apply);
    if Requested(again) && apply && s.b.vms[id].status != STARTED {
      assert s3.b.vms == s.b.vms - {id};
    } else {
      assert id in s3.b.vms && s3.b.vms.Keys == {id};
    }
  }

  lemma RestingIsPoweredOn(s: Sys, id: Id, next: Answers)
    requires Resting(s, id) && Faithful(s, next) && AllGoesWell(next)
    ensures IssuesPowerOn(s, next, id) <==> s.b.vms[id].status == STOPPED
  {
    FindIsExact(s, next);
    assert FindVM(s.o, next) == Found(id);
  }

  lemma NothingIsPoweredOn(s: Sys, id: Id, next: Answers)
    requires Inv(s) && NoVM(s.b) && Faithful(s, next)
    ensures !IssuesPowerOn(s, next, id)
  {
    FindIsExact(s, next);
  }

  // After a power-on failure of either kind, when whatever was requested to destroy
  // the VM has ended one way or another, and a reconcile follows for which all goes
  // well. The VM, whose records have been released,
  // - is gone exactly when it was off, and a delete was requested and had its effect;
  // - is powered on again exactly when it was off and is not gone, or was on, and a
  //   power-off was requested and had its effect.
  lemma PoweredOnAgainExactly(s: Sys, a: Answers, again: Answers, state: TaskState, apply: bool, next: Answers, id: Id)
    requires Inv(s) && !s.o.deleting && Faithful(s, a) && id in s.b.vms
    requires ReconcileVM(s, a).1 == PoweringOnFailed && Faithful(ReconcileVM(s, a).0, again)
    requires state.Terminal() && (state == FINISHED ==> apply)
    requires var s3 := RequestEnded(ReconcileNormal(s, a, again).0, again.newTask, state, apply);
             Faithful(s3, next) && AllGoesWell(next)
    ensures var s1 := ReconcileVM(s, a).0;
            var s3 := RequestEnded(ReconcileNormal(s, a, again).0, again.newTask, state, apply);
            id in s1.b.vms &&
            var on := s1.b.vms[id].status == STARTED;
            && (NoVM(s3.b) <==> !on && Requested(again) && apply)
            && (IssuesPowerOn(s3, next, id) <==> (on <==> Requested(again) && apply))
  {
    FailureLeavesResting(s, a, id);
    var s1 := ReconcileVM(s, a).0;
    WhatIsLeft(s1, id, again, state, apply);
    RequestEndedKeepsInv(s1, id, again, state, apply);
    var s3 := RequestEnded(ReconcileNormal(s, a, again).0, again.newTask, state, apply);
    if NoVM(s3.b) {
      NothingIsPoweredOn(s3, id, next);
    } else {
      RestingIsPoweredOn(s3, id, next);
    }
  }

  // Until then every reconcile waits.
  lemma ReconcileWaitsForRequest(s: Sys, a: Answers, again: Answers, soon: Answers, id: Id)
    requires Inv(s) && !s.o.deleting && Faithful(s, a) && id in s.b.vms
    requires ReconcileVM(s, a).1 == PoweringOnFailed && Faithful(ReconcileVM(s, a).0, again) && Requested(again)
    requires Faithful(ReconcileNormal(s, a, again).0, soon)
    ensures ReconcileVM(ReconcileNormal(s, a, again).0, soon) == (ReconcileNormal(s, a, again).0, Pending)
  {
    FailureLeavesResting(s, a, id);
    DestroyOfResting(ReconcileVM(s, a).0, id, again);
  }

  // True answers that let a call proceed.
  lemma TrueAnswers(s: Sys) returns (a: Answers)
    requires "" !in s.b.tasks
    ensures RoundAnswers(s, a) && AllGoesWell(a) && a.uuidReadOk && a.waited == None
  {
    var t := FreshString(s.b.tasks.Keys);
    var byUUID, byName := Missing, Missing;
    if i :| i in s.b.vms && s.b.vms[i].uuid == s.o.biosUUID {
      byUUID := Found(i);
    }
    if i :| i in s.b.vms {
      byName := Found(i);
    }
    a := Answers(if s.o.taskRef in s.b.tasks then TaskIs(s.b.tasks[s.o.taskRef].state) else NoTaskInfo,
                 byUUID, if s.o.uid in s.b.vms then Found(s.o.uid) else Missing, byName,
                 true, true, true, true, true, true, t, None);
  }

  // ------------------------------------- why "no outside removal" is assumed

  function Truth(s: Sys, t: Id, found: Lookup): Answers {
    Answers(if s.o.taskRef in s.b.tasks then TaskIs(s.b.tasks[s.o.taskRef].state) else NoTaskInfo,
            Missing, if s.o.uid in s.b.vms then Found(s.o.uid) else Missing, found,
            true, true, true, true, true, true, t, None)
  }

  // When the VM is removed from outside while its BIOS UUID is remembered, the
  // next two reconciles each create a VM, although every lookup is true.
  lemma OutsideRemovalDuplicates(s: Sys, vm0: Id, t1: Id, t2: Id, id1: Id, id2: Id, vm: BackendVM)
    requires Inv(s) && !s.o.deleting && (forall t :: !InFlightTask(s.b, t))
    requires s.o.biosUUID != "" && s.b.vms.Keys == {vm0} && vm.uuid != s.o.biosUUID
    requires t1 != t2 && t1 != "" && t2 != "" && t1 !in s.b.tasks && t2 !in s.b.tasks
    requires id1 != id2 && id1 != "" && id2 != "" && s.o.uid !in {id1, id2}
    ensures var gone := s.(b := s.b.(vms := map[]));
            var a1 := Truth(gone, t1, Missing);
            var s1 := Complete(ReconcileVM(gone, a1).0, id1, vm);
            var a2 := Truth(s1, t2, Found(id1));
            var s2 := Complete(ReconcileVM(s1, a2).0, id2, vm);
            Faithful(gone, a1) && Faithful(s1, a2) && s2.b.vms.Keys == {id1, id2}
  {
    var gone := s.(b := s.b.(vms := map[]));
    var a1 := Truth(gone, t1, Missing);
    assert s.o.taskRef in s.b.tasks ==> !InFlightTask(s.b, s.o.taskRef);
    var (r1, _) := ReconcileVM(gone, a1);
    assert r1.o == s.o.(taskRef := t1) && r1.b.tasks[t1] == Task(CreateVM, "", WAITING, false);
    var s1 := Complete(r1, id1, vm);
    assert s1.b.vms == map[id1 := vm];
    var a2 := Truth(s1, t2, Found(id1));
    var (r2, _) := ReconcileVM(s1, a2);
    assert r2.b.tasks[t2] == Task(CreateVM, "", WAITING, false);
  }
}
