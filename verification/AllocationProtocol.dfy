// pkg/services/goclient/icenter/icenter.go, UpdateNicIPConfig, by any number of
// callers whose steps interleave, together with the release of a VM's records by
// controllers/icsvm_controller.go, reconcileIPAddressesDelete, and their final
// removal by controllers/ipaddress_controller.go.
module AllocationProtocol {
  import opened Wrappers
  import opened AddressPool
  import opened Allocator

  // Where one caller stands. Waiting for the mutex is the same as Idle.
  datatype Pc =
    | Idle
    | Locked(d: Device)
    | Listed(d: Device, snapshot: set<string>)
    | Chosen(d: Device, g: Grant)
    | Done

  // configured: the addresses that each VM's NICs were configured with. Deleting
  // their records does not change it.
  datatype State = State(mutex: Option<VmId>, pcs: map<VmId, Pc>, records: Records,
                         configured: map<VmId, set<string>>) {
    function At(vm: VmId): Pc {
      if vm in pcs then pcs[vm] else Idle
    }

    function Configured(vm: VmId): set<string> {
      if vm in configured then configured[vm] else {}
    }
  }

  datatype Action =
    | Lock(vm: VmId, d: Device)
    | ListRecords(vm: VmId, listing: Listing)
    | Choose(vm: VmId, g: Grant)
    | NoConfig(vm: VmId)
    | WriteRecord(vm: VmId, ok: bool)
    | Unlock(vm: VmId)
    | DeleteRecord(vm: VmId, key: RecordKey)
    | PurgeRecord(key: RecordKey)

  const START := State(None, map[], map[], map[])

  ghost predicate Enabled(s: State, a: Action) {
    match a
    case Lock(vm, _) => s.At(vm) == Idle && s.mutex == None
    case ListRecords(vm, _) => s.At(vm).Locked?
    case Choose(vm, g) =>
      s.At(vm).Listed? && s.At(vm).d.ipAddrs.Some? && Picks(s.At(vm).d, s.At(vm).snapshot, g)
    case NoConfig(vm) => s.At(vm).Listed? && s.At(vm).d.ipAddrs.None?
    case WriteRecord(vm, _) => s.At(vm).Chosen?
    case Unlock(vm) => s.At(vm) == Done
    // One reconcile at a time runs for a VM, so its own release does not overlap
    // its own allocation; other VMs' steps may fall anywhere.
    case DeleteRecord(vm, key) =>
      && s.At(vm) == Idle
      && key in s.records && key.ns == vm.ns
      && s.records[key].vmRef == vm.name && !s.records[key].deleting
    case PurgeRecord(key) => key in s.records && s.records[key].deleting
  }

  function To(s: State, vm: VmId, pc: Pc): State {
    s.(pcs := s.pcs[vm := pc])
  }

  function Apply(s: State, a: Action): State
    requires Enabled(s, a)
  {
    match a
    case Lock(vm, d) => To(s, vm, Locked(d)).(mutex := Some(vm))
    case ListRecords(vm, listing) => To(s, vm, Listed(s.At(vm).d, Shown(listing, s.records)))
    case Choose(vm, g) => To(s, vm, Chosen(s.At(vm).d, g))
    case NoConfig(vm) => To(s, vm, Done)
    case WriteRecord(vm, ok) =>
      var ip := s.At(vm).g.ip;
      To(s, vm, Done).(records := if ok then WithRecord(s.records, vm, ip) else s.records,
                       configured := s.configured[vm := s.Configured(vm) + {ip}])
    case Unlock(vm) => To(s, vm, Idle).(mutex := None)
    case DeleteRecord(vm, key) => s.(records := s.records[key := s.records[key].(deleting := true)])
    case PurgeRecord(key) => s.(records := s.records - {key})
  }

  // ------------------------------------------------------------------- runs

  datatype Run = Begin | Then(before: Run, a: Action)

  function EndOf(r: Run): State
    requires IsRun(r)
    decreases r, 1
  {
    match r
    case Begin => START
    case Then(before, a) => Apply(EndOf(before), a)
  }

  ghost predicate IsRun(r: Run)
    decreases r, 0
  {
    match r
    case Begin => true
    case Then(before, a) => IsRun(before) && Enabled(EndOf(before), a)
  }

  lemma Extends(r: Run, a: Action)
    requires IsRun(r) && Enabled(EndOf(r), a)
    ensures IsRun(Then(r, a)) && EndOf(Then(r, a)) == Apply(EndOf(r), a)
  {
  }

  // A List call that shows every record there is; it may show more.
  predicate MissesNothing(s: State, a: Action) {
    a.ListRecords? ==> Addresses(s.records) <= Shown(a.listing, s.records)
  }

  // Every List call of the run was like that.
  ghost predicate CompleteLists(r: Run)
    requires IsRun(r)
  {
    r.Then? ==> CompleteLists(r.before) && MissesNothing(EndOf(r.before), r.a)
  }

  // --------------------------------------------------------------- invariant

  // A caller past Lock holds the mutex, and no other caller does.
  ghost predicate Exclusive(s: State) {
    forall vm :: s.At(vm) != Idle <==> s.mutex == Some(vm)
  }

  // At most one record, over all namespaces, carries any one address.
  ghost predicate UniqueRecords(s: State) {
    forall k, l :: k in s.records && l in s.records && k != l && IsAddress(s.records[k].address)
                   ==> s.records[k].address != s.records[l].address
  }

  // What a caller has listed or chosen is still right when it is used.
  ghost predicate Current(s: State, vm: VmId) {
    match s.At(vm)
    case Listed(_, snapshot) => Addresses(s.records) <= snapshot
    case Chosen(_, g) => IsAddress(g.ip) ==> g.ip !in Addresses(s.records)
    case _ => true
  }

  ghost predicate Inv(s: State) {
    Exclusive(s) && Named(s.records) && UniqueRecords(s) && forall vm :: Current(s, vm)
  }

  lemma AddressesSmaller(before: Records, after: Records)
    requires forall k :: k in after ==> k in before && after[k].address == before[k].address
    ensures Addresses(after) <= Addresses(before)
  {
  }

  lemma ChosenIsFresh(s: State, vm: VmId)
    requires Inv(s) && s.At(vm).Chosen? && IsAddress(s.At(vm).g.ip)
    ensures forall k :: k in s.records ==> s.records[k].address != s.At(vm).g.ip
  {
    forall k | k in s.records ensures s.records[k].address != s.At(vm).g.ip {
      assert Current(s, vm);
      assert s.records[k].address in Addresses(s.records);
    }
  }

  lemma OthersAreIdle(s: State, vm: VmId)
    requires Exclusive(s) && s.At(vm) != Idle
    ensures forall other :: other != vm ==> s.At(other) == Idle
  {
  }

  lemma ListKeepsInv(s: State, vm: VmId, listing: Listing)
    requires Inv(s) && s.At(vm).Locked? && Addresses(s.records) <= Shown(listing, s.records)
    ensures Inv(Apply(s, ListRecords(vm, listing)))
  {
    OthersAreIdle(s, vm);
  }

  lemma ChooseKeepsInv(s: State, vm: VmId, g: Grant)
    requires Inv(s) && Enabled(s, Choose(vm, g))
    ensures Inv(Apply(s, Choose(vm, g)))
  {
    OthersAreIdle(s, vm);
    PickIsUnrecorded(s, vm, g);
    var s' := To(s, vm, Chosen(s.At(vm).d, g));
    forall other ensures Current(s', other) {
      assert other != vm ==> s'.At(other) == s.At(other) == Idle;
    }
  }

  lemma PickIsUnrecorded(s: State, vm: VmId, g: Grant)
    requires Current(s, vm) && s.At(vm).Listed? && Picks(s.At(vm).d, s.At(vm).snapshot, g)
    ensures IsAddress(g.ip) ==> g.ip !in Addresses(s.records)
  {
    if IsAddress(g.ip) { PickedAddressIsFreeAndListed(s.At(vm).d, s.At(vm).snapshot, g); }
  }

  lemma WriteKeepsInv(s: State, vm: VmId, ok: bool)
    requires Inv(s) && s.At(vm).Chosen?
    ensures Inv(Apply(s, WriteRecord(vm, ok)))
  {
    OthersAreIdle(s, vm);
    if IsAddress(s.At(vm).g.ip) { ChosenIsFresh(s, vm); }
  }

  // Fewer records, and none with another address.
  lemma FewerKeepsInv(s: State, records: Records)
    requires Inv(s)
    requires forall k :: k in records ==> k in s.records && records[k].address == s.records[k].address
    ensures Inv(s.(records := records))
  {
    AddressesSmaller(s.records, records);
    forall vm ensures Current(s.(records := records), vm) { assert Current(s, vm); }
  }

  lemma StepKeepsInv(s: State, a: Action)
    requires Inv(s) && Enabled(s, a) && MissesNothing(s, a)
    ensures Inv(Apply(s, a))
  {
    match a
    case Lock(vm, _) =>
    case ListRecords(vm, listing) => ListKeepsInv(s, vm, listing);
    case Choose(vm, g) => ChooseKeepsInv(s, vm, g);
    case NoConfig(vm) => OthersAreIdle(s, vm);
    case WriteRecord(vm, ok) => WriteKeepsInv(s, vm, ok);
    case Unlock(vm) => OthersAreIdle(s, vm);
    case DeleteRecord(_, _) => FewerKeepsInv(s, Apply(s, a).records);
    case PurgeRecord(_) => FewerKeepsInv(s, Apply(s, a).records);
  }

  lemma {:induction false} RunKeepsInv(r: Run)
    requires IsRun(r) && CompleteLists(r)
    ensures Inv(EndOf(r))
  {
    if r.Then? {
      RunKeepsInv(r.before);
      StepKeepsInv(EndOf(r.before), r.a);
    }
  }

  // ------------------------------------------------------------ main results

  predicate HasLiveRecord(s: State, vm: VmId, a: string) {
    var k := RecordKey(vm.ns, a);
    k in s.records && s.records[k].address == a && s.records[k].vmRef == vm.name && !s.records[k].deleting
  }

  // With lists that miss nothing, no two VMs ever hold a live record for one
  // address, whatever pools they use, exhausted or not, and whichever writes fail.
  lemma NoSharedRecord(r: Run, vm1: VmId, vm2: VmId, a: string)
    requires IsRun(r) && CompleteLists(r) && IsAddress(a)
    requires HasLiveRecord(EndOf(r), vm1, a) && HasLiveRecord(EndOf(r), vm2, a)
    ensures vm1 == vm2
  {
    RunKeepsInv(r);
  }

  // A granted address has no record, in any namespace, when it is written.
  lemma GrantedAddressIsUnrecorded(r: Run, vm: VmId)
    requires IsRun(r) && CompleteLists(r)
    requires EndOf(r).At(vm).Chosen? && IsAddress(EndOf(r).At(vm).g.ip)
    ensures EndOf(r).At(vm).g.ip !in Addresses(EndOf(r).records)
    ensures forall other :: other != vm ==> EndOf(r).At(other) == Idle
  {
    RunKeepsInv(r);
    assert Current(EndOf(r), vm);
    OthersAreIdle(EndOf(r), vm);
  }

  // -------------------------------------------------------- two passes in turn

  function Pass(r: Run, vm: VmId, d: Device, listing: Listing, g: Grant, writeOk: bool): Run {
    Then(Then(Then(Then(Then(r, Lock(vm, d)), ListRecords(vm, listing)), Choose(vm, g)),
              WriteRecord(vm, writeOk)), Unlock(vm))
  }

  // What a pass leaves, started with nobody between lock and unlock.
  function AfterPass(s: State, vm: VmId, g: Grant, writeOk: bool): State {
    State(None, s.pcs[vm := Idle],
          if writeOk then WithRecord(s.records, vm, g.ip) else s.records,
          s.configured[vm := s.Configured(vm) + {g.ip}])
  }

  // An uninterrupted pass is what Allocator.AddressBook.UpdateNicIPConfig does
  // to the records.
  lemma PassEffect(r: Run, vm: VmId, d: Device, listing: Listing, g: Grant, writeOk: bool)
    requires IsRun(r) && EndOf(r).At(vm) == Idle && EndOf(r).mutex == None && d.ipAddrs.Some?
    requires Picks(d, Shown(listing, EndOf(r).records), g)
    ensures IsRun(Pass(r, vm, d, listing, g, writeOk))
    ensures EndOf(Pass(r, vm, d, listing, g, writeOk)) == AfterPass(EndOf(r), vm, g, writeOk)
  {
    ListSteps(EndOf(r), vm, d, listing);
    Extends(r, Lock(vm, d));
    Extends(Then(r, Lock(vm, d)), ListRecords(vm, listing));
    PassSecondHalf(Then(Then(r, Lock(vm, d)), ListRecords(vm, listing)), EndOf(r), vm, d,
                   Shown(listing, EndOf(r).records), g, writeOk);
  }

  lemma ListSteps(s: State, vm: VmId, d: Device, listing: Listing)
    requires Enabled(s, Lock(vm, d))
    ensures var s1 := Apply(s, Lock(vm, d));
            && Enabled(s1, ListRecords(vm, listing))
            && Apply(s1, ListRecords(vm, listing))
               == To(s, vm, Listed(d, Shown(listing, s.records))).(mutex := Some(vm))
  {
    assert Apply(s, Lock(vm, d)) == To(s, vm, Locked(d)).(mutex := Some(vm));
  }

  lemma GrantSteps(s: State, vm: VmId, g: Grant, writeOk: bool)
    requires s.At(vm).Listed? && Enabled(s, Choose(vm, g))
    ensures var s3 := Apply(s, Choose(vm, g));
            && Enabled(s3, WriteRecord(vm, writeOk))
            && var s4 := Apply(s3, WriteRecord(vm, writeOk));
               Enabled(s4, Unlock(vm)) && Apply(s4, Unlock(vm)) == AfterPass(s, vm, g, writeOk)
  {
    var s3 := Apply(s, Choose(vm, g));
    assert s3 == To(s, vm, Chosen(s.At(vm).d, g));
    var s4 := Apply(s3, WriteRecord(vm, writeOk));
    assert s4.pcs == s3.pcs[vm := Done] && s4.pcs[vm := Idle] == s.pcs[vm := Idle];
  }

  lemma ListedIsForgotten(s: State, vm: VmId, d: Device, snapshot: set<string>, g: Grant, writeOk: bool)
    ensures AfterPass(To(s, vm, Listed(d, snapshot)).(mutex := Some(vm)), vm, g, writeOk) == AfterPass(s, vm, g, writeOk)
  {
    assert s.pcs[vm := Listed(d, snapshot)][vm := Idle] == s.pcs[vm := Idle];
  }

  lemma PassSecondHalf(r: Run, s: State, vm: VmId, d: Device, snapshot: set<string>, g: Grant, writeOk: bool)
    requires IsRun(r) && EndOf(r) == To(s, vm, Listed(d, snapshot)).(mutex := Some(vm))
    requires d.ipAddrs.Some? && Picks(d, snapshot, g)
    ensures var p := Then(Then(Then(r, Choose(vm, g)), WriteRecord(vm, writeOk)), Unlock(vm));
            IsRun(p) && EndOf(p) == AfterPass(s, vm, g, writeOk)
  {
    GrantSteps(EndOf(r), vm, g, writeOk);
    Extends(r, Choose(vm, g));
    Extends(Then(r, Choose(vm, g)), WriteRecord(vm, writeOk));
    Extends(Then(Then(r, Choose(vm, g)), WriteRecord(vm, writeOk)), Unlock(vm));
    ListedIsForgotten(s, vm, d, snapshot, g, writeOk);
  }

  // Some pass of vm, with this answer to its List call, gives it address a.
  ghost predicate CanGive(r: Run, vm: VmId, d: Device, listing: Listing, a: string)
    requires IsRun(r)
  {
    exists g, writeOk ::
      && Picks(d, Shown(listing, EndOf(r).records), g)
      && var p := Pass(r, vm, d, listing, g, writeOk);
         IsRun(p) && a in EndOf(p).Configured(vm)
  }

  // After a pass that gave vm1 address g.ip, a pass of vm2 can give it the same
  // address exactly when what its List call shows leaves that address to be
  // granted: so never when the first write succeeded and the list misses nothing.
  lemma SecondPassSharesExactly(r: Run, vm1: VmId, d1: Device, listing1: Listing, g: Grant, writeOk: bool,
                                vm2: VmId, d2: Device, listing2: Listing)
    requires IsRun(r) && EndOf(r).mutex == None && EndOf(r).At(vm1) == EndOf(r).At(vm2) == Idle
    requires d1.ipAddrs.Some? && Picks(d1, Shown(listing1, EndOf(r).records), g)
    requires vm1 != vm2 && IsAddress(g.ip) && g.ip !in EndOf(r).Configured(vm2) && d2.ipAddrs.Some?
    ensures var first := Pass(r, vm1, d1, listing1, g, writeOk);
            && IsRun(first) && g.ip in EndOf(first).Configured(vm1)
            && (CanGive(first, vm2, d2, listing2, g.ip)
                <==> Grantable(d2, Shown(listing2, EndOf(first).records), g.ip))
            && (writeOk && MissesNothing(EndOf(first), ListRecords(vm2, listing2)) ==>
                  !CanGive(first, vm2, d2, listing2, g.ip))
  {
    PassEffect(r, vm1, d1, listing1, g, writeOk);
    var first := Pass(r, vm1, d1, listing1, g, writeOk);
    CanGiveExactly(first, vm2, d2, listing2, g.ip);
    if writeOk {
      RecordIsListed(EndOf(r).records, vm1, g.ip);
    }
  }

  lemma RecordIsListed(records: Records, vm: VmId, a: string)
    ensures a in Addresses(WithRecord(records, vm, a))
  {
    var after := WithRecord(records, vm, a);
    assert after[RecordKey(vm.ns, a)].address == a;
  }

  lemma CanGiveExactly(r: Run, vm: VmId, d: Device, listing: Listing, a: string)
    requires IsRun(r) && EndOf(r).mutex == None && EndOf(r).At(vm) == Idle && d.ipAddrs.Some?
    requires IsAddress(a) && a !in EndOf(r).Configured(vm)
    ensures CanGive(r, vm, d, listing, a) <==> Grantable(d, Shown(listing, EndOf(r).records), a)
  {
    var taken := Shown(listing, EndOf(r).records);
    GrantableExactly(d, taken, a);
    forall g, writeOk | Picks(d, taken, g)
      ensures var p := Pass(r, vm, d, listing, g, writeOk);
              IsRun(p) && (a in EndOf(p).Configured(vm) <==> g.ip == a)
    {
      PassEffect(r, vm, d, listing, g, writeOk);
    }
    if Grantable(d, taken, a) {
      var g :| Picks(d, taken, g) && g.ip == a;
      assert IsRun(Pass(r, vm, d, listing, g, true));
    }
  }

  // After a failed write a complete list leaves the address to be granted just as
  // before.
  lemma FailedWriteSharesExactly(r: Run, vm1: VmId, d1: Device, g: Grant, vm2: VmId, d2: Device)
    requires IsRun(r) && EndOf(r).mutex == None && EndOf(r).At(vm1) == EndOf(r).At(vm2) == Idle
    requires d1.ipAddrs.Some? && Picks(d1, Addresses(EndOf(r).records), g)
    requires vm1 != vm2 && IsAddress(g.ip) && g.ip !in EndOf(r).Configured(vm2) && d2.ipAddrs.Some?
    ensures var unwritten := Pass(r, vm1, d1, Complete, g, false);
            && IsRun(unwritten) && g.ip in EndOf(unwritten).Configured(vm1)
            && (CanGive(unwritten, vm2, d2, Complete, g.ip) <==> Grantable(d2, Addresses(EndOf(r).records), g.ip))
  {
    SecondPassSharesExactly(r, vm1, d1, Complete, g, false, vm2, d2, Complete);
    PassEffect(r, vm1, d1, Complete, g, false);
  }

  // After a successful write, a failed list gives the address out exactly when an
  // entry of the second device starts with it.
  lemma FailedListSharesExactly(r: Run, vm1: VmId, d1: Device, g: Grant, vm2: VmId, d2: Device)
    requires IsRun(r) && EndOf(r).mutex == None && EndOf(r).At(vm1) == EndOf(r).At(vm2) == Idle
    requires d1.ipAddrs.Some? && Picks(d1, Addresses(EndOf(r).records), g)
    requires vm1 != vm2 && IsAddress(g.ip) && g.ip !in EndOf(r).Configured(vm2) && d2.ipAddrs.Some?
    ensures var written := Pass(r, vm1, d1, Complete, g, true);
            && IsRun(written) && g.ip in EndOf(written).Configured(vm1)
            && (CanGive(written, vm2, d2, ListFailed, g.ip) <==> GivesFirst(d2, g.ip))
  {
    PassEffect(r, vm1, d1, Complete, g, true);
    FailedListGivesExactly(Pass(r, vm1, d1, Complete, g, true), vm2, d2, g.ip);
  }

  lemma FailedListGivesExactly(r: Run, vm: VmId, d: Device, a: string)
    requires IsRun(r) && EndOf(r).mutex == None && EndOf(r).At(vm) == Idle && d.ipAddrs.Some?
    requires IsAddress(a) && a !in EndOf(r).Configured(vm)
    ensures CanGive(r, vm, d, ListFailed, a) <==> GivesFirst(d, a)
  {
    CanGiveExactly(r, vm, d, ListFailed, a);
    EmptyListGrantsExactly(d, a);
  }

  // Such runs exist: two VMs that list one static address each get it, with one
  // failed write, with one failed list, or with one list that succeeds but is stale.
  lemma FailuresShareAddress(a: string, vm1: VmId, vm2: VmId, writeOk: bool, listing: Listing) returns (r: Run)
    requires KindOf(a) == Some(Static) && vm1 != vm2
    requires if writeOk then listing.ListFailed? || (listing.Shows? && a !in listing.addresses) else listing.Complete?
    ensures IsRun(r) && a in EndOf(r).Configured(vm1) && a in EndOf(r).Configured(vm2)
  {
    var d := Device(false, false, Some([a]), "", "");
    var g := Grant(a, MaskFor(a, d));
    assert a in Entries(d) && Yields(a, d, {}, g);
    var first := Pass(Begin, vm1, d, Complete, g, writeOk);
    PassEffect(Begin, vm1, d, Complete, g, writeOk);
    var shown := Shown(listing, EndOf(first).records);
    assert a !in shown;
    assert Yields(a, d, shown, g);
    PassEffect(first, vm2, d, listing, g, true);
    r := Pass(first, vm2, d, listing, g, true);
  }
}
