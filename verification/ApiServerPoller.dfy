// controllers/icscluster_controller.go, apiServerTriggers: the map, guarded by a
// mutex, that keeps at most one poller goroutine per cluster. Calls and pollers
// interleave step by step.
module ApiServerPoller {
  import opened Wrappers

  type Uid = string

  datatype Holder = ByCall(t: nat) | ByPoller(p: nat)

  // A call of reconcileICSClusterWhenAPIServerIsOnline; Inserted between writing
  // the map entry and starting the goroutine.
  datatype Call = Out | Locked(uid: Uid) | Inserted(uid: Uid) | Leaving

  // A poller goroutine; Removed once it has deleted its entry.
  datatype Phase = WaitingOnline | WaitingInitialized | WantsLock | HasLock | Removed

  datatype Poller = Poller(uid: Uid, phase: Phase)

  datatype State = State(triggers: set<Uid>, mutex: Option<Holder>,
                         calls: map<nat, Call>, pollers: map<nat, Poller>) {
    function At(t: nat): Call {
      if t in calls then calls[t] else Out
    }
  }

  datatype Action =
    | Lock(t: nat, uid: Uid)
    | Check(t: nat)
    | Start(t: nat, p: nat)
    | Unlock(t: nat)
    | Advance(p: nat)
    | PollerLock(p: nat)
    | PollerDelete(p: nat)
    | PollerUnlock(p: nat)

  predicate Enabled(s: State, a: Action) {
    match a
    case Lock(t, _) => s.At(t) == Out && s.mutex == None
    case Check(t) => s.At(t).Locked?
    case Start(t, p) => s.At(t).Inserted? && p !in s.pollers
    case Unlock(t) => s.At(t) == Leaving
    case Advance(p) => p in s.pollers && s.pollers[p].phase in {WaitingOnline, WaitingInitialized}
    case PollerLock(p) => p in s.pollers && s.pollers[p].phase == WantsLock && s.mutex == None
    case PollerDelete(p) => p in s.pollers && s.pollers[p].phase == HasLock
    case PollerUnlock(p) => p in s.pollers && s.pollers[p].phase == Removed
  }

  function ToPhase(s: State, p: nat, phase: Phase): State
    requires p in s.pollers
  {
    s.(pollers := s.pollers[p := s.pollers[p].(phase := phase)])
  }

  function Apply(s: State, a: Action): State
    requires Enabled(s, a)
  {
    match a
    case Lock(t, uid) => s.(mutex := Some(ByCall(t)), calls := s.calls[t := Locked(uid)])
    case Check(t) =>
      var uid := s.At(t).uid;
      if uid in s.triggers then s.(calls := s.calls[t := Leaving])
      else s.(triggers := s.triggers + {uid}, calls := s.calls[t := Inserted(uid)])
    case Start(t, p) =>
      s.(calls := s.calls[t := Leaving], pollers := s.pollers[p := Poller(s.At(t).uid, WaitingOnline)])
    case Unlock(t) => s.(mutex := None, calls := s.calls[t := Out])
    case Advance(p) =>
      ToPhase(s, p, if s.pollers[p].phase == WaitingOnline then WaitingInitialized else WantsLock)
    case PollerLock(p) => ToPhase(s, p, HasLock).(mutex := Some(ByPoller(p)))
    case PollerDelete(p) => ToPhase(s, p, Removed).(triggers := s.triggers - {s.pollers[p].uid})
    case PollerUnlock(p) => s.(mutex := None, pollers := s.pollers - {p})
  }

  // Started and not yet deregistered.
  predicate Active(s: State, p: nat) {
    p in s.pollers && s.pollers[p].phase != Removed
  }

  ghost predicate Exclusive(s: State) {
    && (forall t :: s.At(t) != Out ==> s.mutex == Some(ByCall(t)))
    && (forall p :: p in s.pollers && s.pollers[p].phase in {HasLock, Removed} ==> s.mutex == Some(ByPoller(p)))
  }

  // An active poller, or a call about to start one, answers for cluster uid.
  ghost predicate Answered(s: State, uid: Uid) {
    (exists p :: Active(s, p) && s.pollers[p].uid == uid) || (exists t :: s.At(t) == Inserted(uid))
  }

  ghost predicate Inv(s: State) {
    Exclusive(s) && MapIsRight(s) && Unique(s)
  }

  const INIT := State({}, None, map[], map[])

  lemma AnsweredStays(s: State, s': State, uid: Uid)
    requires Answered(s, uid)
    requires forall p :: Active(s, p) && s.pollers[p].uid == uid ==> Active(s', p) && s'.pollers[p].uid == uid
    requires forall t :: s.At(t) == Inserted(uid) ==>
               s'.At(t) == Inserted(uid) || exists p :: Active(s', p) && s'.pollers[p].uid == uid
    ensures Answered(s', uid)
  {
  }

  lemma StepKeepsExclusive(s: State, a: Action)
    requires Exclusive(s) && Enabled(s, a)
    ensures Exclusive(Apply(s, a))
  {
  }

  ghost predicate Unique(s: State) {
    && (forall p, q :: Active(s, p) && Active(s, q) && s.pollers[p].uid == s.pollers[q].uid ==> p == q)
    && (forall t, p :: s.At(t).Inserted? && Active(s, p) ==> s.pollers[p].uid != s.At(t).uid)
  }

  ghost predicate MapIsRight(s: State) {
    forall uid :: uid in s.triggers <==> Answered(s, uid)
  }

  lemma StepKeepsUnique(s: State, a: Action)
    requires Inv(s) && Enabled(s, a)
    ensures Unique(Apply(s, a))
  {
    var s' := Apply(s, a);
    if a.Start? {
      assert forall t :: t != a.t ==> s.At(t) == Out;
      forall t ensures !s'.At(t).Inserted? {
        assert t == a.t || s'.At(t) == s.At(t);
      }
    }
    forall t, p | s'.At(t).Inserted? && Active(s', p)
      ensures s'.pollers[p].uid != s'.At(t).uid
    {
      if a.Check? && t == a.t {
        assert Active(s, p) && s'.pollers[p] == s.pollers[p];
        assert Answered(s, s.pollers[p].uid);
      } else if !a.Start? {
        assert s'.At(t) == s.At(t);
        assert Active(s, p) && s'.pollers[p].uid == s.pollers[p].uid;
      }
    }
  }

  lemma CheckKeepsMap(s: State, t: nat)
    requires Inv(s) && s.At(t).Locked?
    ensures MapIsRight(Apply(s, Check(t)))
  {
    var s', own := Apply(s, Check(t)), s.At(t).uid;
    forall uid ensures uid in s'.triggers <==> Answered(s', uid) {
      if uid == own && own !in s.triggers {
        assert s'.At(t) == Inserted(uid);
      } else {
        if Answered(s, uid) { AnsweredStays(s, s', uid); }
        if Answered(s', uid) { AnsweredStays(s', s, uid); }
      }
    }
  }

  lemma StartKeepsMap(s: State, t: nat, p: nat)
    requires Inv(s) && s.At(t).Inserted? && p !in s.pollers
    ensures MapIsRight(Apply(s, Start(t, p)))
  {
    var s', own := Apply(s, Start(t, p)), s.At(t).uid;
    assert Active(s', p) && s'.pollers[p].uid == own;
    assert Answered(s, own);
    forall uid | uid != own ensures uid in s'.triggers <==> Answered(s', uid) {
      if Answered(s, uid) { AnsweredStays(s, s', uid); }
      if Answered(s', uid) { AnsweredStays(s', s, uid); }
    }
  }

  lemma DeleteKeepsMap(s: State, p: nat)
    requires Inv(s) && Enabled(s, PollerDelete(p))
    ensures MapIsRight(Apply(s, PollerDelete(p)))
  {
    var s', own := Apply(s, PollerDelete(p)), s.pollers[p].uid;
    assert Active(s, p);
    assert forall t :: s.At(t) == Out;
    forall t ensures s'.At(t) != Inserted(own) { assert s'.At(t) == s.At(t); }
    assert forall q :: Active(s', q) ==> Active(s, q) && q != p && s'.pollers[q] == s.pollers[q];
    assert !Answered(s', own);
    forall uid | uid != own ensures uid in s'.triggers <==> Answered(s', uid) {
      if Answered(s, uid) { AnsweredStays(s, s', uid); }
      if Answered(s', uid) { AnsweredStays(s', s, uid); }
    }
  }

  lemma OthersKeepMap(s: State, a: Action)
    requires Inv(s) && Enabled(s, a) && !a.Check? && !a.Start? && !a.PollerDelete?
    ensures MapIsRight(Apply(s, a))
  {
    var s' := Apply(s, a);
    forall uid ensures uid in s'.triggers <==> Answered(s', uid) {
      if Answered(s, uid) { AnsweredStays(s, s', uid); }
      if Answered(s', uid) { AnsweredStays(s', s, uid); }
    }
  }

  lemma StepKeepsInv(s: State, a: Action)
    requires Inv(s) && Enabled(s, a)
    ensures Inv(Apply(s, a))
  {
    StepKeepsExclusive(s, a);
    StepKeepsUnique(s, a);
    match a
    case Check(t) => CheckKeepsMap(s, t);
    case Start(t, p) => StartKeepsMap(s, t, p);
    case PollerDelete(p) => DeleteKeepsMap(s, p);
    case _ => OthersKeepMap(s, a);
  }

  ghost predicate IsRun(states: seq<State>, acts: seq<Action>) {
    && |states| == |acts| + 1 && states[0] == INIT
    && forall i :: 0 <= i < |acts| ==> Enabled(states[i], acts[i]) && states[i + 1] == Apply(states[i], acts[i])
  }

  lemma {:induction false} RunKeepsInv(states: seq<State>, acts: seq<Action>, i: nat)
    requires IsRun(states, acts) && i < |states|
    ensures Inv(states[i])
  {
    if i > 0 {
      RunKeepsInv(states, acts, i - 1);
      StepKeepsInv(states[i - 1], acts[i - 1]);
    }
  }

  // In every interleaving there is never more than one poller for a cluster, and
  // whenever no call holds the mutex, a cluster is in the map exactly when it has
  // a poller that has not deregistered.
  lemma OnePollerPerCluster(states: seq<State>, acts: seq<Action>, i: nat)
    requires IsRun(states, acts) && i < |states|
    ensures var s := states[i];
            && (forall p, q :: Active(s, p) && Active(s, q) && s.pollers[p].uid == s.pollers[q].uid ==> p == q)
            && (forall p :: Active(s, p) ==> s.pollers[p].uid in s.triggers)
            && (!(s.mutex.Some? && s.mutex.value.ByCall?) ==>
                  forall uid :: uid in s.triggers ==> exists p :: Active(s, p) && s.pollers[p].uid == uid)
  {
    RunKeepsInv(states, acts, i);
    var s := states[i];
    forall p | Active(s, p) ensures s.pollers[p].uid in s.triggers {
      assert Answered(s, s.pollers[p].uid);
    }
    if !(s.mutex.Some? && s.mutex.value.ByCall?) {
      forall uid | uid in s.triggers ensures exists p :: Active(s, p) && s.pollers[p].uid == uid {
        assert Answered(s, uid);
      }
    }
  }

  // -------------------------------------------------- what a call and a poller do

  // A call that holds the mutex starts a poller exactly for a cluster that is not in
  // the map.
  lemma CheckExactly(s: State, t: nat)
    requires s.At(t).Locked?
    ensures var uid, s' := s.At(t).uid, Apply(s, Check(t));
            && (s'.At(t) == Inserted(uid) <==> uid !in s.triggers) && (s'.At(t) == Leaving <==> uid in s.triggers)
            && s'.triggers == s.triggers + {uid} && s'.pollers == s.pollers && s'.mutex == s.mutex
  {
  }

  // A whole call: afterwards the cluster has a poller, its own exactly when it had none,
  // and the mutex is free.
  lemma CallLeavesPoller(s: State, t: nat, uid: Uid, p: nat) returns (s': State)
    requires Inv(s) && s.At(t) == Out && s.mutex == None && p !in s.pollers
    ensures Inv(s') && s'.mutex == None && s'.At(t) == Out && s'.triggers == s.triggers + {uid}
    ensures s'.pollers == if uid in s.triggers then s.pollers else s.pollers[p := Poller(uid, WaitingOnline)]
    ensures exists q :: Active(s', q) && s'.pollers[q].uid == uid
  {
    StepKeepsInv(s, Lock(t, uid));
    var s1 := Apply(s, Lock(t, uid));
    StepKeepsInv(s1, Check(t));
    var s2 := Apply(s1, Check(t));
    if uid !in s.triggers {
      StepKeepsInv(s2, Start(t, p));
      s2 := Apply(s2, Start(t, p));
    }
    StepKeepsInv(s2, Unlock(t));
    s' := Apply(s2, Unlock(t));
    assert Answered(s', uid);
    assert forall u :: s'.At(u) != Inserted(uid);
  }

  // A poller that is past its waits deregisters once the mutex is free: then its
  // cluster is not in the map, and has no poller.
  lemma PollerDeregisters(s: State, p: nat) returns (s': State)
    requires Inv(s) && s.mutex == None && p in s.pollers && s.pollers[p].phase == WantsLock
    ensures Inv(s') && s'.mutex == None && s'.pollers == s.pollers - {p}
    ensures s'.triggers == s.triggers - {s.pollers[p].uid}
    ensures forall q :: Active(s', q) ==> s'.pollers[q].uid != s.pollers[p].uid
  {
    StepKeepsInv(s, PollerLock(p));
    var s1 := Apply(s, PollerLock(p));
    StepKeepsInv(s1, PollerDelete(p));
    var s2 := Apply(s1, PollerDelete(p));
    StepKeepsInv(s2, PollerUnlock(p));
    s' := Apply(s2, PollerUnlock(p));
    LockedDeletedUnlocked(s.pollers, p);
    OthersHaveOtherClusters(s, s', p);
  }

  lemma LockedDeletedUnlocked(pollers: map<nat, Poller>, p: nat)
    requires p in pollers
    ensures var locked := pollers[p := pollers[p].(phase := HasLock)];
            locked[p := locked[p].(phase := Removed)] - {p} == pollers - {p}
  {
  }

  lemma OthersHaveOtherClusters(s: State, s': State, p: nat)
    requires Unique(s) && Active(s, p) && s'.pollers == s.pollers - {p}
    ensures forall q :: Active(s', q) ==> s'.pollers[q].uid != s.pollers[p].uid
  {
    assert forall q :: Active(s', q) ==> Active(s, q) && q != p && s'.pollers[q] == s.pollers[q];
  }

  // Its two waits come first, in order.
  lemma PollerWaitsTwice(s: State, p: nat)
    requires p in s.pollers && s.pollers[p].phase == WaitingOnline
    ensures var s1 := Apply(s, Advance(p));
            && s1.pollers[p].phase == WaitingInitialized
            && Apply(s1, Advance(p)) == s.(pollers := s.pollers[p := s.pollers[p].(phase := WantsLock)])
  {
    var s1 := Apply(s, Advance(p));
    assert s1.pollers[p := s1.pollers[p].(phase := WantsLock)] == s.pollers[p := s.pollers[p].(phase := WantsLock)];
  }
}
