// Static addresses over the whole life of their VMs: the allocation protocol
// together with the lifecycle of each VM and the three places where
// controllers/icsvm_controller.go releases a VM's address records.
module AddressSafety {
  import opened Wrappers
  import opened AddressPool
  import opened Allocator
  import P = AllocationProtocol
  import L = VmLifecycle
  import VmDestroy
  import VmProgress

  datatype World = World(p: P.State, sys: map<VmId, L.Sys>) {
    function Sys(vm: VmId): L.Sys {
      if vm in sys then sys[vm] else NEW_SYS
    }
  }

  const NEW_SYS := L.Sys(L.NEW_OBJECT, L.Backend(map[], map[]))
  const START := World(P.START, map[])

  // What a reconcile has met when it calls reconcileIPAddressesDelete.
  datatype Site =
    | AfterNotFound(d: L.Answers)
    | OnPowerOnFailure(a: L.Answers)
    | Unreachable

  ghost predicate Reached(s: L.Sys, site: Site) {
    match site
    case AfterNotFound(d) => s.o.deleting && L.Faithful(s, d) && L.DestroyVM(s, d).1 == L.NotFound
    case OnPowerOnFailure(a) => !s.o.deleting && L.Faithful(s, a) && L.ReconcileVM(s, a).1 == L.PoweringOnFailed
    case Unreachable => s.o.deleting
  }

  datatype Action =
    | Allocate(a: P.Action)
    | Live(vm: VmId, step: L.Step)
    | Release(vm: VmId, key: RecordKey, site: Site)
    // An ICSVM that is gone is created anew under its name.
    | Recreate(vm: VmId)

  ghost predicate Enabled(w: World, act: Action) {
    match act
    case Allocate(a) => !a.DeleteRecord? && P.Enabled(w.p, a)
    case Live(vm, step) => L.Allows(w.Sys(vm), step) && (step.Env? || w.p.At(vm) == P.Idle)
    case Release(vm, key, site) => Reached(w.Sys(vm), site) && P.Enabled(w.p, P.DeleteRecord(vm, key))
    case Recreate(vm) => Ended(w.Sys(vm)) && w.p.At(vm) == P.Idle
  }

  // A reconcile that leaves the backend with no VM and none being made, because the
  // create was refused, and a VM or a create that ends, let go of the addresses
  // that the NICs were configured with.
  ghost predicate LetsGo(s: L.Sys, step: L.Step)
    requires L.Allows(s, step)
  {
    L.Quiet(L.Take(s, step).b) && (step.Reconcile? || !L.Quiet(s.b))
  }

  function Cleared(p: P.State, vm: VmId): P.State {
    p.(configured := p.configured[vm := {}])
  }

  ghost function Apply(w: World, act: Action): World
    requires Enabled(w, act)
  {
    match act
    case Allocate(a) => w.(p := P.Apply(w.p, a))
    case Live(vm, step) =>
      World(if LetsGo(w.Sys(vm), step) then Cleared(w.p, vm) else w.p, w.sys[vm := L.Take(w.Sys(vm), step)])
    case Release(vm, key, _) => w.(p := P.Apply(w.p, P.DeleteRecord(vm, key)))
    case Recreate(vm) => World(Cleared(w.p, vm), w.sys[vm := w.Sys(vm).(o := L.NEW_OBJECT)])
  }

  // The object is being deleted, and its VM is gone for good.
  ghost predicate Ended(s: L.Sys) {
    s.o.deleting && L.Quiet(s.b)
  }

  // A step whose calls succeed and which releases nothing before the VM's end.
  ghost predicate Safe(w: World, act: Action) {
    && Enabled(w, act)
    && (act.Allocate? ==> P.MissesNothing(w.p, act.a) && (act.a.WriteRecord? ==> act.a.ok))
    && (act.Release? ==> Ended(w.Sys(act.vm)))
  }

  // -------------------------------------------------------------- invariant

  // An address that a VM is configured with has a live record of that VM, until
  // the VM's end.
  ghost predicate Recorded(w: World) {
    forall vm, a :: a in w.p.Configured(vm) && IsAddress(a) && !Ended(w.Sys(vm)) ==> P.HasLiveRecord(w.p, vm, a)
  }

  ghost predicate VmsInv(w: World) {
    forall vm :: L.Inv(w.Sys(vm))
  }

  ghost predicate Inv(w: World) {
    P.Inv(w.p) && VmsInv(w) && Recorded(w)
  }

  lemma EndedStays(s: L.Sys, step: L.Step)
    requires L.Inv(s) && Ended(s) && L.Allows(s, step)
    ensures Ended(L.Take(s, step))
  {
    match step
    case Env(e) => if !e.MarkDeleted? { L.QuietStays(s.o, s.b, e); }
    case Destroy(d) => L.FindIsExact(s, d);
    case Reconcile(_, _) =>
  }

  lemma WriteKeepsRecord(p: P.State, writer: VmId, vm: VmId, a: string)
    requires P.Inv(p) && p.At(writer).Chosen? && IsAddress(a)
    requires a in p.Configured(vm) ==> P.HasLiveRecord(p, vm, a)
    ensures var p' := P.Apply(p, P.WriteRecord(writer, true));
            a in p'.Configured(vm) ==> P.HasLiveRecord(p', vm, a)
  {
    if IsAddress(p.At(writer).g.ip) { P.ChosenIsFresh(p, writer); }
  }

  lemma AllocateKeepsRecorded(w: World, a: P.Action)
    requires Inv(w) && Safe(w, Allocate(a))
    ensures Recorded(Apply(w, Allocate(a)))
  {
    var w' := Apply(w, Allocate(a));
    forall vm, ip | ip in w'.p.Configured(vm) && IsAddress(ip) && !Ended(w'.Sys(vm))
      ensures P.HasLiveRecord(w'.p, vm, ip)
    {
      assert w'.Sys(vm) == w.Sys(vm);
      if a.WriteRecord? {
        WriteKeepsRecord(w.p, a.vm, vm, ip);
      } else {
        assert P.HasLiveRecord(w.p, vm, ip);
      }
    }
  }

  lemma ClearedKeepsInv(p: P.State, vm: VmId)
    requires P.Inv(p)
    ensures P.Inv(Cleared(p, vm))
  {
    forall other ensures P.Current(Cleared(p, vm), other) { assert P.Current(p, other); }
  }

  // A refused create lets go of the addresses that were granted for it.
  lemma RefusedCreateLetsGo(w: World, vm: VmId, a: L.Answers, again: L.Answers)
    requires Enabled(w, Live(vm, L.Reconcile(a, again))) && L.Inv(w.Sys(vm)) && L.Quiet(w.Sys(vm).b) && !a.accepted
    ensures var w' := Apply(w, Live(vm, L.Reconcile(a, again)));
            && w'.p.Configured(vm) == {} && w'.p.records == w.p.records
            && forall other :: other != vm ==> w'.p.Configured(other) == w.p.Configured(other)
  {
    VmProgress.CallWithoutVM(w.Sys(vm), a);
  }

  lemma LiveKeepsInv(w: World, vm: VmId, step: L.Step)
    requires Inv(w) && Enabled(w, Live(vm, step))
    ensures Inv(Apply(w, Live(vm, step)))
  {
    var w' := Apply(w, Live(vm, step));
    L.StepKeepsInv(w.Sys(vm), step);
    ClearedKeepsInv(w.p, vm);
    forall other ensures L.Inv(w'.Sys(other)) && (Ended(w.Sys(other)) ==> Ended(w'.Sys(other))) {
      assert L.Inv(w.Sys(other));
      if other == vm && Ended(w.Sys(vm)) { EndedStays(w.Sys(vm), step); }
    }
    forall other, a | a in w'.p.Configured(other) && IsAddress(a) && !Ended(w'.Sys(other))
      ensures P.HasLiveRecord(w'.p, other, a)
    {
      assert P.HasLiveRecord(w.p, other, a);
    }
  }

  // A release breaks nothing when the VM has ended, or is not configured with the
  // address released.
  lemma ReleaseKeepsInv(w: World, vm: VmId, key: RecordKey, site: Site)
    requires Inv(w) && Enabled(w, Release(vm, key, site))
    requires Ended(w.Sys(vm)) || !IsAddress(key.name) || key.name !in w.p.Configured(vm)
    ensures Inv(Apply(w, Release(vm, key, site)))
  {
    var w' := Apply(w, Release(vm, key, site));
    P.StepKeepsInv(w.p, P.DeleteRecord(vm, key));
    forall other, a | a in w'.p.Configured(other) && IsAddress(a) && !Ended(w'.Sys(other))
      ensures P.HasLiveRecord(w'.p, other, a)
    {
      assert P.HasLiveRecord(w.p, other, a);
      assert w.p.records[key].address == key.name;
    }
    forall other ensures L.Inv(w'.Sys(other)) { assert L.Inv(w.Sys(other)); }
  }

  lemma RecreateKeepsInv(w: World, vm: VmId)
    requires Inv(w) && Enabled(w, Recreate(vm))
    ensures Inv(Apply(w, Recreate(vm)))
  {
    var w' := Apply(w, Recreate(vm));
    L.QuietIsNew(w.Sys(vm).b);
    ClearedKeepsInv(w.p, vm);
    forall other ensures L.Inv(w'.Sys(other)) { assert L.Inv(w.Sys(other)); }
    forall other, a | a in w'.p.Configured(other) && IsAddress(a) && !Ended(w'.Sys(other))
      ensures P.HasLiveRecord(w'.p, other, a)
    {
      assert P.HasLiveRecord(w.p, other, a);
    }
  }

  lemma StepKeepsInv(w: World, act: Action)
    requires Inv(w) && Safe(w, act)
    ensures Inv(Apply(w, act))
  {
    match act
    case Allocate(a) =>
      P.StepKeepsInv(w.p, a);
      AllocateKeepsRecorded(w, a);
      forall vm ensures L.Inv(Apply(w, act).Sys(vm)) { assert L.Inv(w.Sys(vm)); }
    case Live(vm, step) => LiveKeepsInv(w, vm, step);
    case Release(vm, key, site) => ReleaseKeepsInv(w, vm, key, site);
    case Recreate(vm) => RecreateKeepsInv(w, vm);
  }

  // ------------------------------------------------------------ main results

  // Two VMs that exist or are being made are configured with one address.
  ghost predicate Sharing(w: World) {
    exists vm1, vm2, a :: SharedBy(w, vm1, vm2, a)
  }

  ghost predicate SharedBy(w: World, vm1: VmId, vm2: VmId, a: string) {
    && vm1 != vm2 && IsAddress(a)
    && a in w.p.Configured(vm1) && a in w.p.Configured(vm2)
    && !L.Quiet(w.Sys(vm1).b) && !L.Quiet(w.Sys(vm2).b)
  }

  datatype Trace = Here | Next(act: Action, rest: Trace)

  ghost predicate SafeTrace(w: World, t: Trace)
    decreases t
  {
    t.Next? ==> Safe(w, t.act) && SafeTrace(Apply(w, t.act), t.rest)
  }

  ghost function End(w: World, t: Trace): World
    requires SafeTrace(w, t)
    decreases t
  {
    if t.Here? then w else End(Apply(w, t.act), t.rest)
  }

  lemma {:induction false} TraceKeepsInv(w: World, t: Trace)
    requires Inv(w) && SafeTrace(w, t)
    ensures Inv(End(w, t))
    decreases t
  {
    if t.Next? {
      StepKeepsInv(w, t.act);
      TraceKeepsInv(Apply(w, t.act), t.rest);
    }
  }

  lemma OneVMPerAddress(w: World, vm1: VmId, vm2: VmId, a: string)
    requires Inv(w) && IsAddress(a) && a in w.p.Configured(vm1) && a in w.p.Configured(vm2)
    requires !Ended(w.Sys(vm1)) && !Ended(w.Sys(vm2))
    ensures vm1 == vm2
  {
    assert P.HasLiveRecord(w.p, vm1, a) && P.HasLiveRecord(w.p, vm2, a);
  }

  lemma InvMeansNotSharing(w: World)
    requires Inv(w)
    ensures !Sharing(w)
  {
    forall vm1, vm2, a
      | && IsAddress(a) && a in w.p.Configured(vm1) && a in w.p.Configured(vm2)
        && !L.Quiet(w.Sys(vm1).b) && !L.Quiet(w.Sys(vm2).b)
      ensures vm1 == vm2
    {
      OneVMPerAddress(w, vm1, vm2, a);
    }
  }

  // In every interleaving of allocations, lifecycles and releases in which lists
  // miss nothing, writes succeed, and each release follows its VM's end, no two
  // VMs are ever configured with one address.
  lemma SafeRunsNeverShare(t: Trace)
    requires SafeTrace(START, t)
    ensures !Sharing(End(START, t))
  {
    L.InitInv();
    TraceKeepsInv(START, t);
    InvMeansNotSharing(End(START, t));
  }

  // Of the three places that release, the one after "notfound" always follows the
  // VM's end, the one on a power-on failure never does, and the one with iCenter
  // unreachable does when nothing is left.
  lemma WhichReleasesFollowTheEnd(s: L.Sys, site: Site)
    requires L.Inv(s) && Reached(s, site)
    ensures Ended(s) <==> L.Quiet(s.b)
    ensures site.AfterNotFound? ==> L.Quiet(s.b)
    ensures site.OnPowerOnFailure? ==> !L.Quiet(s.b) && !L.NoVM(s.b)
  {
    match site
    case AfterNotFound(d) => VmDestroy.NotFoundMeansGone(s, d);
    case OnPowerOnFailure(a) => L.FindIsExact(s, a);
    case Unreachable =>
  }

  // World w' can be reached by safe steps.
  ghost predicate Leads(w: World, w': World) {
    exists t :: SafeTrace(w, t) && End(w, t) == w'
  }

  lemma LeadsToItself(w: World)
    ensures Leads(w, w)
  {
    assert SafeTrace(w, Here) && End(w, Here) == w;
  }

  lemma StepLeads(w: World, act: Action, w': World)
    requires Safe(w, act) && Leads(Apply(w, act), w')
    ensures Leads(w, w')
  {
    var t :| SafeTrace(Apply(w, act), t) && End(Apply(w, act), t) == w';
    assert SafeTrace(w, Next(act, t)) && End(w, Next(act, t)) == w';
  }

  lemma LeadsOn(w: World, mid: World, w': World)
    requires Leads(w, mid) && Leads(mid, w')
    ensures Leads(w, w')
  {
    var t :| SafeTrace(w, t) && End(w, t) == mid;
    TraceLeadsOn(w, t, w');
  }

  lemma {:induction false} TraceLeadsOn(w: World, t: Trace, w': World)
    requires SafeTrace(w, t) && Leads(End(w, t), w')
    ensures Leads(w, w')
    decreases t
  {
    if t.Next? {
      TraceLeadsOn(Apply(w, t.act), t.rest, w');
      StepLeads(w, t.act, w');
    }
  }

  lemma LeadsKeepsInv(w: World, w': World)
    requires Inv(w) && Leads(w, w')
    ensures Inv(w')
  {
    var t :| SafeTrace(w, t) && End(w, t) == w';
    TraceKeepsInv(w, t);
  }

  ghost predicate CanShare(w: World) {
    exists w' :: Leads(w, w') && Sharing(w')
  }

  lemma CanShareBefore(w: World, mid: World)
    requires Leads(w, mid) && CanShare(mid)
    ensures CanShare(w)
  {
    var w' :| Leads(mid, w') && Sharing(w');
    LeadsOn(w, mid, w');
  }

  // Releasing one record can lead to two VMs with one address, with every later
  // step safe, exactly when the VM still exists or is being made and is configured
  // with that address. A lookup of the VM before the call decides it.
  lemma ReleaseSharesExactly(w: World, vm: VmId, key: RecordKey, site: Site)
    requires Inv(w) && Enabled(w, Release(vm, key, site))
    ensures CanShare(Apply(w, Release(vm, key, site)))
            <==> !L.Quiet(w.Sys(vm).b) && IsAddress(key.name) && key.name in w.p.Configured(vm)
  {
    var w' := Apply(w, Release(vm, key, site));
    WhichReleasesFollowTheEnd(w.Sys(vm), site);
    if !L.Quiet(w.Sys(vm).b) && IsAddress(key.name) && key.name in w.p.Configured(vm) {
      P.StepKeepsInv(w.p, P.DeleteRecord(vm, key));
      ReleasedIsShared(w', vm, key);
    } else {
      ReleaseKeepsInv(w, vm, key, site);
      forall later | Leads(w', later) ensures !Sharing(later) {
        LeadsKeepsInv(w', later);
        InvMeansNotSharing(later);
      }
    }
  }

  // ------------------------------------------------ how a release leads there

  function StepsLeft(pc: P.Pc): nat {
    match pc
    case Idle => 0
    case Done => 1
    case Chosen(_, _) => 2
    case Listed(_, _) => 3
    case Locked(_) => 4
  }

  ghost predicate Released(p: P.State, vm: VmId, key: RecordKey) {
    && P.Inv(p) && IsAddress(key.name) && key.name in p.Configured(vm)
    && key in p.records && p.records[key].deleting
  }

  // The next step of the caller between lock and unlock.
  lemma HolderMoves(p: P.State, vm: VmId, key: RecordKey) returns (a: P.Action)
    requires Released(p, vm, key) && p.mutex.Some?
    ensures P.Enabled(p, a) && !a.DeleteRecord? && P.MissesNothing(p, a) && (a.WriteRecord? ==> a.ok)
    ensures var p' := P.Apply(p, a);
            && Released(p', vm, key)
            && (p'.mutex.Some? ==> p'.mutex == p.mutex)
            && StepsLeft(p'.At(p.mutex.value)) < StepsLeft(p.At(p.mutex.value))
  {
    var x := p.mutex.value;
    match p.At(x) {
      case Locked(d) => a := P.ListRecords(x, Complete);
      case Listed(d, taken) =>
        if d.ipAddrs.None? {
          a := P.NoConfig(x);
        } else {
          var g := SomeGrant(d, taken);
          a := P.Choose(x, g);
        }
      case Chosen(_, g) =>
        a := P.WriteRecord(x, true);
        if IsAddress(g.ip) { P.ChosenIsFresh(p, x); }
      case Done => a := P.Unlock(x);
    }
    P.StepKeepsInv(p, a);
  }

  lemma SomeGrant(d: Device, taken: set<string>) returns (g: Grant)
    ensures Picks(d, taken, g)
  {
    if e :| e in Entries(d) && !Skipped(e, taken) {
      g := EveryEntryCanBePicked(e, d, taken);
    } else {
      g := Grant("", "");
    }
  }

  lemma ReleasedIsShared(w: World, vm: VmId, key: RecordKey)
    requires Released(w.p, vm, key) && !L.Quiet(w.Sys(vm).b)
    ensures CanShare(w)
    decreases if w.p.mutex.Some? then StepsLeft(w.p.At(w.p.mutex.value)) + 1 else 0
  {
    if w.p.mutex.Some? {
      var a := HolderMoves(w.p, vm, key);
      var w' := Apply(w, Allocate(a));
      ReleasedIsShared(w', vm, key);
      LeadsToItself(w');
      StepLeads(w, Allocate(a), w');
      CanShareBefore(w, w');
    } else {
      var w' := Apply(w, Allocate(P.PurgeRecord(key)));
      PurgedIsFree(w.p, key);
      UnrecordedIsShared(w', vm, key.name);
      LeadsToItself(w');
      StepLeads(w, Allocate(P.PurgeRecord(key)), w');
      CanShareBefore(w, w');
    }
  }

  lemma PurgedIsFree(p: P.State, key: RecordKey)
    requires P.Inv(p) && key in p.records && p.records[key].deleting && IsAddress(key.name)
    ensures key.name !in Addresses(P.Apply(p, P.PurgeRecord(key)).records)
  {
  }

  // A pass that gives vm an address that is not recorded.
  lemma CanBeGiven(w: World, vm: VmId, a: string) returns (w': World)
    requires w.p.mutex == None && P.Exclusive(w.p) && IsAddress(a) && a !in Addresses(w.p.records)
    ensures Leads(w, w') && w'.sys == w.sys && w'.p.At(vm) == P.Idle
    ensures w'.p.records == WithRecord(w.p.records, vm, a)
    ensures w'.p.configured == w.p.configured[vm := w.p.Configured(vm) + {a}]
  {
    var d := Device(false, false, Some([a]), "", "");
    AddressIsStatic(a);
    var g := Grant(a, MaskFor(a, d));
    assert a in Entries(d) && Yields(a, d, Addresses(w.p.records), g);
    P.ListSteps(w.p, vm, d, Complete);
    var w1 := Apply(w, Allocate(P.Lock(vm, d)));
    var w2 := Apply(w1, Allocate(P.ListRecords(vm, Complete)));
    P.GrantSteps(w2.p, vm, g, true);
    var w3 := Apply(w2, Allocate(P.Choose(vm, g)));
    var w4 := Apply(w3, Allocate(P.WriteRecord(vm, true)));
    w' := Apply(w4, Allocate(P.Unlock(vm)));
    LeadsToItself(w');
    StepLeads(w4, Allocate(P.Unlock(vm)), w');
    StepLeads(w3, Allocate(P.WriteRecord(vm, true)), w');
    StepLeads(w2, Allocate(P.Choose(vm, g)), w');
    StepLeads(w1, Allocate(P.ListRecords(vm, Complete)), w');
    StepLeads(w, Allocate(P.Lock(vm, d)), w');
  }

  // A reconcile that has a new VM made.
  lemma CanBeMade(w: World, vm: VmId) returns (w': World)
    requires w.p.At(vm) == P.Idle && w.Sys(vm) == NEW_SYS
    ensures Leads(w, w') && w'.p == w.p
    ensures w'.sys == w.sys[vm := L.Issue(NEW_SYS, L.CreateVM, "", CreateAnswers("1", L.NoTaskInfo))]
    ensures !L.Quiet(w'.Sys(vm).b)
  {
    var ask := CreateAnswers("1", L.NoTaskInfo);
    var step := L.Reconcile(ask, CreateAnswers("2", L.TaskIs(L.WAITING)));
    var s' := L.Take(NEW_SYS, step);
    assert s' == L.Issue(NEW_SYS, L.CreateVM, "", ask) && L.InFlightTask(s'.b, "1");
    w' := Apply(w, Live(vm, step));
    LeadsToItself(w');
    StepLeads(w, Live(vm, step), w');
  }

  // Another VM can now be given the address, and be made with it.
  lemma UnrecordedIsShared(w: World, vm: VmId, a: string)
    requires w.p.mutex == None && P.Exclusive(w.p)
    requires IsAddress(a) && a in w.p.Configured(vm) && a !in Addresses(w.p.records)
    requires !L.Quiet(w.Sys(vm).b)
    ensures CanShare(w)
  {
    var other := NewName(w.sys.Keys + {vm});
    var w1 := CanBeGiven(w, other, a);
    var w2 := CanBeMade(w1, other);
    LeadsOn(w, w1, w2);
    assert SharedBy(w2, vm, other, a);
  }

  function CreateAnswers(t: L.Id, task: L.TaskAnswer): L.Answers {
    L.Answers(task, L.Missing, L.Missing, L.Missing, true, true, true, true, true, true, t, None)
  }

  // A VM that does not exist yet.
  lemma NewName(used: set<VmId>) returns (vm: VmId)
    ensures vm !in used
  {
    var name := FreshString(set v | v in used :: v.name);
    vm := VmId("", name);
  }

  // ---------------------------------------------- such releases are reached

  // From here on, safe steps reach a release of vm's record at this kind of place
  // that can lead to sharing.
  ghost predicate HarmIsReached(w: World, vm: VmId, unreachable: bool) {
    exists w', key, site ::
      && Leads(w, w') && Enabled(w', Release(vm, key, site))
      && (if unreachable then site.Unreachable? else site.OnPowerOnFailure?)
      && CanShare(Apply(w', Release(vm, key, site)))
  }

  ghost predicate IsOff(s: L.Sys) {
    && s.o == L.VmObject("1", "", "", false)
    && s.b.vms == map["v" := L.BackendVM("u", L.STOPPED)]
    && s.b.tasks == map["1" := L.Task(L.CreateVM, "", L.FINISHED, true)]
  }

  // The VM is made, and is off.
  lemma CanBeOff(w: World, vm: VmId) returns (w': World)
    requires w.p.At(vm) == P.Idle && w.Sys(vm) == NEW_SYS
    ensures Leads(w, w') && w'.p == w.p && IsOff(w'.Sys(vm))
  {
    var w1 := CanBeMade(w, vm);
    var step := L.Env(L.TaskStep("1", L.FINISHED, true, "v", L.BackendVM("u", L.STOPPED)));
    w' := Apply(w1, Live(vm, step));
    assert "v" in w'.Sys(vm).b.vms;
    LeadsToItself(w');
    StepLeads(w1, Live(vm, step), w');
    LeadsOn(w, w1, w');
  }

  // For every address, from the start: a VM is given it, is made and is off; then a
  // reconcile that finds too little memory, or a deletion that finds iCenter
  // unreachable, releases it, and two VMs can come to share it.
  lemma HarmIsReachedFromStart(vm: VmId, a: string, unreachable: bool)
    requires IsAddress(a)
    ensures HarmIsReached(START, vm, unreachable)
  {
    var w2 := GivenAndOff(vm, a);
    var key := RecordKey(vm.ns, a);
    LowMemoryFails(w2.Sys(vm));
    if unreachable {
      var w3 := CanBeDeleted(w2, vm);
      LeadsOn(START, w2, w3);
      ReleaseHarms(w3, vm, key, Unreachable);
    } else {
      ReleaseHarms(w2, vm, key, OnPowerOnFailure(LowMemoryAnswers()));
    }
  }

  ghost predicate Releasable(w: World, vm: VmId, a: string) {
    && P.Enabled(w.p, P.DeleteRecord(vm, RecordKey(vm.ns, a)))
    && a in w.p.Configured(vm)
  }

  lemma GivenAndOff(vm: VmId, a: string) returns (w: World)
    requires IsAddress(a)
    ensures Leads(START, w) && IsOff(w.Sys(vm)) && Releasable(w, vm, a)
  {
    var w1 := CanBeGiven(START, vm, a);
    w := CanBeOff(w1, vm);
    LeadsOn(START, w1, w);
    assert RecordKey(vm.ns, a) in w1.p.records;
  }

  lemma CanBeDeleted(w: World, vm: VmId) returns (w': World)
    requires !L.NoVM(w.Sys(vm).b)
    ensures Leads(w, w') && w'.p == w.p && w'.Sys(vm).b == w.Sys(vm).b && w'.Sys(vm).o.deleting
  {
    w' := Apply(w, Live(vm, L.Env(L.MarkDeleted)));
    LeadsToItself(w');
    StepLeads(w, Live(vm, L.Env(L.MarkDeleted)), w');
  }

  lemma LowMemoryFails(s: L.Sys)
    requires IsOff(s)
    ensures Reached(s, OnPowerOnFailure(LowMemoryAnswers())) && !L.NoVM(s.b)
  {
    assert "v" in s.b.vms;
  }

  function LowMemoryAnswers(): L.Answers {
    L.Answers(L.TaskIs(L.FINISHED), L.Missing, L.Missing, L.Found("v"), true, true, true, true, false, true, "2", None)
  }

  lemma ReleaseHarms(w: World, vm: VmId, key: RecordKey, site: Site)
    requires Leads(START, w) && Enabled(w, Release(vm, key, site)) && !site.AfterNotFound?
    requires !L.NoVM(w.Sys(vm).b) && IsAddress(key.name) && key.name in w.p.Configured(vm)
    ensures HarmIsReached(START, vm, site.Unreachable?)
  {
    L.InitInv();
    LeadsKeepsInv(START, w);
    ReleaseSharesExactly(w, vm, key, site);
  }
}
