// pkg/services/vimmachine.go, VimMachineService.ReconcileNormal: how an ICSMachine
// takes its provider ID, addresses and readiness from its ICSVM.
module MachineReadiness {
  import opened Wrappers
  import opened ProviderId

  // The ICSVM fields that are read.
  datatype IcsVm = IcsVm(ready: bool, biosUUID: string, addresses: seq<string>, macs: seq<string>)

  // The ICSVM as unstructured data; an absent field is None.
  datatype VmData = VmData(ready: Option<bool>, biosUUID: Option<string>,
                           addresses: Option<seq<string>>, macs: Option<seq<string>>)

  // Every one of these fields is left out when it has its zero value.
  function ToUnstructured(vm: IcsVm): VmData {
    VmData(if vm.ready then Some(true) else None,
           if vm.biosUUID != "" then Some(vm.biosUUID) else None,
           if vm.addresses != [] then Some(vm.addresses) else None,
           if vm.macs != [] then Some(vm.macs) else None)
  }

  // network holds the MAC addresses of the accepted network statuses.
  datatype Machine = Machine(providerID: Option<string>, addresses: seq<string>, network: seq<string>, ready: bool)

  datatype Outcome = Done | Requeue | Error

  function NonEmpty(macs: seq<string>): (r: seq<string>)
    ensures forall x :: multiset(r)[x] == if x == "" then 0 else multiset(macs)[x]
  {
    assert macs != [] ==> macs == macs[..|macs| - 1] + [macs[|macs| - 1]];
    if macs == [] then []
    else NonEmpty(macs[..|macs| - 1]) + if macs[|macs| - 1] == "" then [] else [macs[|macs| - 1]]
  }

  function Reconciled(m: Machine, d: VmData): (Machine, Outcome) {
    if d.ready != Some(true) then (m, Requeue)
    else if d.biosUUID.None? || d.biosUUID.value == "" then (m, Requeue)
    else if !IsUUID(d.biosUUID.value) then (m, Error)
    else
      var m1 := m.(providerID := Some(PREFIX + d.biosUUID.value),
                   network := if d.macs.Some? then NonEmpty(d.macs.value) else m.network,
                   addresses := if d.addresses.Some? then d.addresses.value else m.addresses);
      if m1.addresses == []
      then (m1, if d.macs.Some? && "" in d.macs.value then Error else Requeue)
      else (m1.(ready := true), Done)
  }

  // The ICSVM is ready and has a valid UUID.
  predicate TellsProviderID(d: VmData) {
    d.ready == Some(true) && d.biosUUID.Some? && IsUUID(d.biosUUID.value)
  }

  class MachineReconciler {
    var providerID: Option<string>
    var addresses: seq<string>
    var network: seq<string>
    var ready: bool

    function View(): Machine
      reads this
    {
      Machine(providerID, addresses, network, ready)
    }

    constructor ()
      ensures View() == Machine(None, [], [], false)
    {
      providerID, addresses, network, ready := None, [], [], false;
    }

    // reconcileProviderID
    method ReconcileProviderID(d: VmData) returns (ok: bool, err: bool)
      modifies this`providerID
      ensures ok <==> d.biosUUID.Some? && IsUUID(d.biosUUID.value)
      ensures err <==> d.biosUUID.Some? && d.biosUUID.value != "" && !ok
      ensures providerID == if ok then Some(PREFIX + d.biosUUID.value) else old(providerID)
    {
      if d.biosUUID.None? || d.biosUUID.value == "" {
        return false, false;
      }
      var id := ConvertUUIDToProviderID(d.biosUUID.value);
      if id == "" {
        return false, true;
      }
      if providerID.None? || providerID.value != id {
        providerID := Some(id);
      }
      return true, false;
    }

    // reconcileNetwork
    method ReconcileNetwork(d: VmData) returns (ok: bool, err: bool)
      modifies this`addresses, this`network
      ensures network == if d.macs.Some? then NonEmpty(d.macs.value) else old(network)
      ensures addresses == if d.addresses.Some? then d.addresses.value else old(addresses)
      ensures ok <==> addresses != []
      ensures err <==> !ok && d.macs.Some? && "" in d.macs.value
    {
      var errs := false;
      if d.macs.Some? {
        var list := d.macs.value;
        network := [];
        for i := 0 to |list|
          invariant network == NonEmpty(list[..i]) && errs == ("" in list[..i])
          invariant addresses == old(addresses)
        {
          assert list[..i + 1] == list[..i] + [list[i]] && list[..i + 1][..i] == list[..i];
          if list[i] == "" {
            errs := true;
          } else {
            network := network + [list[i]];
          }
        }
        assert list[..|list|] == list;
      }
      if d.addresses.Some? {
        addresses := d.addresses.value;
      }
      if |addresses| == 0 {
        return false, errs;
      }
      return true, false;
    }

    method ReconcileNormal(d: VmData) returns (out: Outcome)
      modifies this
      ensures (View(), out) == Reconciled(old(View()), d)
      ensures out == Done <==> TellsProviderID(d) && addresses != []
      ensures out == Error <==>
                && d.ready == Some(true) && d.biosUUID.Some? && d.biosUUID.value != ""
                && (!IsUUID(d.biosUUID.value) || (addresses == [] && d.macs.Some? && "" in d.macs.value))
      ensures ready <==> old(ready) || out == Done
      ensures providerID == if TellsProviderID(d) then Some("ics://" + d.biosUUID.value) else old(providerID)
      ensures addresses == if TellsProviderID(d) && d.addresses.Some? then d.addresses.value else old(addresses)
      ensures network == if TellsProviderID(d) && d.macs.Some? then NonEmpty(d.macs.value) else old(network)
    {
      if d.ready.None? || !d.ready.value {
        return Requeue;
      }
      var ok, err := ReconcileProviderID(d);
      if !ok {
        return if err then Error else Requeue;
      }
      ok, err := ReconcileNetwork(d);
      if !ok {
        return if err then Error else Requeue;
      }
      ready := true;
      return Done;
    }
  }

  // -------------------------------------------------------------------- runs

  // A ready machine has a provider ID that decodes to the valid UUID it was made
  // from, and an address.
  predicate Sound(m: Machine) {
    m.ready ==>
      && m.addresses != []
      && m.providerID.Some?
      && var uuid := ConvertProviderIDToUUID(m.providerID);
         IsUUID(uuid) && m.providerID.value == PREFIX + uuid
  }

  function Run(m: Machine, vms: seq<IcsVm>): Machine {
    if vms == [] then m
    else Reconciled(Run(m, vms[..|vms| - 1]), ToUnstructured(vms[|vms| - 1])).0
  }

  // One reconcile breaks this exactly when a ready machine meets a ready ICSVM
  // with a valid UUID and an empty address list that is present in the data.
  lemma BreaksExactly(m: Machine, d: VmData)
    requires Sound(m)
    ensures !Sound(Reconciled(m, d).0)
            <==> && m.ready && d.ready == Some(true)
                 && d.biosUUID.Some? && IsUUID(d.biosUUID.value)
                 && d.addresses == Some([])
  {
  }

  // The serialised form never has one: whatever states its ICSVM goes through, an
  // ICSMachine that is ready stays ready, with a valid provider ID and at least
  // one address.
  lemma {:induction false} ReadyIsForever(m: Machine, vms: seq<IcsVm>)
    requires Sound(m)
    ensures Sound(Run(m, vms))
    ensures m.ready ==> Run(m, vms).ready
  {
    if vms != [] {
      ReadyIsForever(m, vms[..|vms| - 1]);
      BreaksExactly(Run(m, vms[..|vms| - 1]), ToUnstructured(vms[|vms| - 1]));
    }
  }

  // The provider ID of a machine is always the one of the last ICSVM state that
  // was ready with a valid UUID.
  lemma {:induction false} ProviderIDIsLastReady(m: Machine, vms: seq<IcsVm>)
    ensures Run(m, vms).providerID ==
              if exists i :: Counts(vms, i)
              then Some(PREFIX + vms[LastReady(vms)].biosUUID)
              else m.providerID
  {
    if vms != [] {
      var init, n := vms[..|vms| - 1], |vms| - 1;
      ProviderIDIsLastReady(m, init);
      assert forall i :: 0 <= i < n ==> (Counts(vms, i) <==> Counts(init, i));
      if !Counts(vms, n) && exists i :: Counts(init, i) {
        var i :| Counts(init, i);
        assert Counts(vms, i);
        assert LastReady(vms) == LastReady(init);
      }
    }
  }

  predicate Counts(vms: seq<IcsVm>, i: int) {
    0 <= i < |vms| && vms[i].ready && IsUUID(vms[i].biosUUID)
  }

  function LastReady(vms: seq<IcsVm>): (i: nat)
    requires exists i :: Counts(vms, i)
    ensures Counts(vms, i) && forall j :: i < j ==> !Counts(vms, j)
  {
    if Counts(vms, |vms| - 1) then |vms| - 1
    else
      var init := vms[..|vms| - 1];
      assert forall i :: Counts(vms, i) ==> Counts(init, i);
      assert forall i :: 0 <= i < |init| ==> (Counts(vms, i) <==> Counts(init, i));
      LastReady(init)
  }

  lemma StepExactly(m: Machine, vm: IcsVm)
    ensures var m' := Reconciled(m, ToUnstructured(vm)).0;
            var told := vm.ready && IsUUID(vm.biosUUID);
            && m'.addresses == (if told && vm.addresses != [] then vm.addresses else m.addresses)
            && (m'.ready <==> m.ready || (told && m'.addresses != []))
  {
  }

  // A machine has an address exactly when it started with one, or met an ICSVM state
  // that was ready with a valid UUID and had one. It is ready exactly when it started
  // so, or met such a state with an address of its own, or one when it had an address
  // already.
  lemma {:induction false} ReadyExactly(m: Machine, vms: seq<IcsVm>)
    ensures Run(m, vms).addresses != [] <==> m.addresses != [] || exists i :: Counts(vms, i) && vms[i].addresses != []
    ensures Run(m, vms).ready
            <==> || m.ready
                 || (exists i :: Counts(vms, i) && vms[i].addresses != [])
                 || (m.addresses != [] && exists i :: Counts(vms, i))
  {
    if vms != [] {
      var init, n := vms[..|vms| - 1], |vms| - 1;
      ReadyExactly(m, init);
      StepExactly(Run(m, init), vms[n]);
      assert forall i :: 0 <= i < n ==> (Counts(vms, i) <==> Counts(init, i)) && vms[i] == init[i];
      assert Counts(vms, n) <==> vms[n].ready && IsUUID(vms[n].biosUUID);
      if i :| Counts(init, i) { assert Counts(vms, i); }
      if i :| Counts(init, i) && init[i].addresses != [] { assert Counts(vms, i) && vms[i].addresses != []; }
    }
  }
}
