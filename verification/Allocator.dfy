// pkg/services/goclient/icenter/icenter.go, UpdateNicIPConfig, and the static
// address pass of pkg/services/goclient/net/net.go, GetNetworkStatus, run by one
// caller at a time. AllocationProtocol.dfy interleaves many callers.
module Allocator {
  import opened Wrappers
  import opened Bytes
  import opened Ipv4
  import opened CidrScan
  import opened AddressPool

  // An ICSVM is known by its namespace and name.
  datatype VmId = VmId(ns: string, name: string)

  // IPAddress objects are named after the address text, per namespace.
  datatype RecordKey = RecordKey(ns: string, name: string)

  // An IPAddress object; deleting once its deletion timestamp is set.
  datatype IPRecord = IPRecord(address: string, vmRef: string, deleting: bool)

  type Records = map<RecordKey, IPRecord>

  // Every record is named after its address.
  predicate Named(records: Records) {
    forall k :: k in records ==> records[k].address == k.name
  }

  // The address fields of a backend NIC that allocation writes.
  datatype Nic = Nic(dhcp: bool, staticIp: bool, ip: string, netmask: string, gateway: string,
                     userIp: string, ipv4Netmask: string, ipv4Gateway: string)

  function Addresses(records: Records): set<string> {
    set k | k in records :: records[k].address
  }

  // CreateOrUpdateIPAddress: the record named after the address, in the VM's
  // namespace, points to the VM; an existing one keeps its deletion timestamp.
  function WithRecord(records: Records, vm: VmId, address: string): (r: Records)
    ensures var k := RecordKey(vm.ns, address);
            && r.Keys == records.Keys + {k} && (forall j :: j in records && j != k ==> r[j] == records[j])
            && (r[k].deleting <==> k in records && records[k].deleting)
  {
    var k := RecordKey(vm.ns, address);
    records[k := IPRecord(address, vm.name, k in records && records[k].deleting)]
  }

  // What a List call answers: every record; something else, as a cache may that is
  // behind; or an error.
  datatype Listing = Complete | Shows(addresses: set<string>) | ListFailed

  function Shown(listing: Listing, records: Records): set<string> {
    match listing
    case Complete => Addresses(records)
    case Shows(addresses) => addresses
    case ListFailed => {}
  }

  function Configured(nic: Nic, g: Grant, gateway4: string): Nic {
    nic.(dhcp := false, staticIp := true, ip := g.ip, netmask := g.netmask, gateway := gateway4,
         userIp := g.ip, ipv4Netmask := g.netmask, ipv4Gateway := gateway4)
  }

  // A VM whose address pass is due: at least two devices, as many NICs as
  // devices, and a device after the first that is neither DHCP nor static yet.
  predicate PassDue(nics: seq<Nic>, devices: seq<Device>) {
    && |devices| >= 2 && |nics| == |devices|
    && exists i :: 1 <= i < |devices| && NeedsAddress(nics[i], devices[i])
  }

  predicate NeedsAddress(nic: Nic, d: Device) {
    !d.UsesDHCP() && !nic.staticIp
  }

  // What isWaitingForStaticIPAllocation has ruled out before a pass runs.
  predicate NotWaiting(devices: seq<Device>) {
    forall d :: d in devices ==> d.UsesDHCP() || (d.ipAddrs.Some? && d.ipAddrs.value != [])
  }

  class AddressBook {
    var locked: bool
    var records: Records

    constructor ()
      ensures !locked && records == map[]
      ensures Valid()
    {
      locked := false;
      records := map[];
    }

    predicate Valid()
      reads this
    {
      Named(records)
    }

    // nic points to element i of a slice, as &vm.Nics[i] does. The caller says
    // how the List call and the record write go.
    method UpdateNicIPConfig(vm: VmId, nics: array<Nic>, i: nat, d: Device, listing: Listing, writeOk: bool)
      requires Valid() && !locked && i < nics.Length && PoolHalts(d, Shown(listing, records))
      modifies this, nics
      ensures Valid() && !locked
      ensures d.ipAddrs.None? ==> nics[..] == old(nics[..]) && records == old(records)
      ensures d.ipAddrs.Some? ==>
                var g := Grant(nics[i].ip, nics[i].netmask);
                && Picks(d, Shown(listing, old(records)), g)
                && nics[..] == old(nics[..])[i := Configured(old(nics[i]), g, d.gateway4)]
                && nics[i] == Nic(false, true, g.ip, g.netmask, d.gateway4, g.ip, g.netmask, d.gateway4)
                && records == if writeOk then WithRecord(old(records), vm, g.ip) else old(records)
    {
      locked := true;
      var listed := if listing.ListFailed? then None else Some(Shown(listing, records));
      var picked := GetIPFromNetworkConfig(d, listed);
      if picked.Ok? {
        nics[i] := Configured(nics[i], picked.value, d.gateway4);
        if writeOk {
          records := WithRecord(records, vm, picked.value.ip);
        }
      }
      locked := false;
    }

    // The first loop of the pass: does any NIC after the first need an address?
    method AnyNeedsAddress(nics: array<Nic>, devices: seq<Device>) returns (edited: bool)
      requires nics.Length == |devices| >= 2
      ensures edited <==> PassDue(nics[..], devices)
    {
      var i := 1;
      while i < |devices|
        invariant 1 <= i <= |devices|
        invariant forall j :: 1 <= j < i ==> !NeedsAddress(nics[j], devices[j])
      {
        if !devices[i].UsesDHCP() && !nics[i].staticIp {
          return true;
        }
        i := i + 1;
      }
      return false;
    }

    // The second-NIC pass; the calls for the i-th NIC go as the two functions say.
    // The edited NICs are then sent to the backend; stored is what that has in the
    // end, which is what the next pass starts from.
    method AssignStaticAddresses(vm: VmId, nics: array<Nic>, devices: seq<Device>,
                                 listing: nat -> Listing, writeOk: nat -> bool, setOk: bool)
      returns (edited: bool, stored: seq<Nic>)
      requires Valid() && !locked && NotWaiting(devices)
      requires forall d :: d in devices ==> NoWholeSpace(d)
      modifies this, nics
      ensures Valid() && !locked
      ensures edited <==> PassDue(old(nics[..]), devices)
      ensures !edited ==> nics[..] == old(nics[..]) && records == old(records)
      ensures !PassDue(nics[..], devices)
      ensures stored == if edited && setOk then nics[..] else old(nics[..])
      ensures PassDue(stored, devices) <==> edited && !setOk
      ensures forall i :: 0 <= i < nics.Length ==>
                if edited then Edited(old(nics[..])[i], nics[i], devices[i], i >= 1) else nics[i] == old(nics[..])[i]
      ensures forall i :: 0 <= i < nics.Length ==>
                if edited && i >= 1 && !devices[i].dhcp4 && !devices[i].dhcp6 && !old(nics[..])[i].staticIp
                then nics[i].staticIp && !nics[i].dhcp && nics[i].userIp == nics[i].ip && nics[i].gateway == devices[i].gateway4
                else nics[i] == old(nics[..])[i]
      ensures edited && CallsSucceed(|devices|, listing, writeOk) ==>
                PassFacts(old(nics[..]), nics[..], devices, nics.Length, old(records), records, vm)
      ensures edited && CallsSucceed(|devices|, listing, writeOk)
                && EnoughRoom(old(nics[..]), devices, old(Addresses(records))) ==>
                forall i :: 1 <= i < nics.Length && NeedsAddress(old(nics[..])[i], devices[i]) ==> IsAddress(nics[i].ip)
    {
      var n := |devices|;
      edited := false;
      ghost var was := nics[..];
      ghost var before := records;
      stored := nics[..];
      if n < 2 || nics.Length != n {
        return;
      }
      edited := AnyNeedsAddress(nics, devices);
      if !edited {
        return;
      }
      EditNics(vm, nics, devices, listing, writeOk);
      if CallsSucceed(n, listing, writeOk) && EnoughRoom(was, devices, Addresses(before)) {
        EveryNicGetsAddress(was, nics[..], devices, before, records, vm);
      }
      if setOk {
        stored := nics[..];
      }
    }

    // The second loop of the pass.
    method EditNics(vm: VmId, nics: array<Nic>, devices: seq<Device>, listing: nat -> Listing, writeOk: nat -> bool)
      requires Valid() && !locked && NotWaiting(devices) && nics.Length == |devices| >= 2
      requires forall d :: d in devices ==> NoWholeSpace(d)
      modifies this, nics
      ensures Valid() && !locked
      ensures forall j :: 0 <= j < nics.Length ==> Edited(old(nics[..])[j], nics[j], devices[j], j >= 1)
      ensures CallsSucceed(|devices|, listing, writeOk) ==>
                PassFacts(old(nics[..]), nics[..], devices, nics.Length, old(records), records, vm)
    {
      var n := |devices|;
      ghost var was := nics[..];
      ghost var before := records;
      var index := 1;
      while index < n
        invariant 1 <= index <= n && Valid() && !locked
        invariant forall j :: 0 <= j < n ==> Edited(was[j], nics[j], devices[j], 1 <= j < index)
        invariant CallsSucceed(n, listing, writeOk) ==> PassFacts(was, nics[..], devices, index, before, records, vm)
      {
        if NeedsAddress(nics[index], devices[index]) {
          assert devices[index] in devices;
          ghost var mid, recs := nics[..], records;
          UpdateNicIPConfig(vm, nics, index, devices[index], listing(index), writeOk(index));
          if CallsSucceed(n, listing, writeOk) {
            ExtendPass(was, mid, nics[..], devices, index, before, recs, records, vm);
          }
        }
        index := index + 1;
      }
    }
  }

  // What the pass makes of one NIC, if it has come past it.
  predicate Edited(was: Nic, now: Nic, d: Device, passed: bool) {
    now == if passed && NeedsAddress(was, d) then Configured(was, Grant(now.ip, now.netmask), d.gateway4) else was
  }

  predicate CallsSucceed(n: nat, listing: nat -> Listing, writeOk: nat -> bool) {
    forall i: nat :: i < n ==> listing(i) == Complete && writeOk(i)
  }

  // NIC j was given an address by the pass, among the NICs below index n.
  predicate GivenAddress(was: seq<Nic>, now: seq<Nic>, devices: seq<Device>, j: int, n: nat)
    requires |was| == |now| == |devices|
  {
    1 <= j < n <= |was| && NeedsAddress(was[j], devices[j]) && IsAddress(now[j].ip)
  }

  // The addresses given so far are new, pairwise different and recorded for vm;
  // no other record of an address changed.
  ghost predicate AssignedAddresses(was: seq<Nic>, now: seq<Nic>, devices: seq<Device>, n: nat,
                                    before: Records, after: Records, vm: VmId)
    requires |was| == |now| == |devices|
  {
    && (forall j :: GivenAddress(was, now, devices, j, n) ==>
          now[j].ip !in Addresses(before) && RecordedFor(after, vm, now[j].ip))
    && (forall j, k :: GivenAddress(was, now, devices, j, n) && GivenAddress(was, now, devices, k, n) && j != k
          ==> now[j].ip != now[k].ip)
    && AddressRecordsKept(before, after)
  }

  predicate RecordedFor(records: Records, vm: VmId, address: string) {
    var key := RecordKey(vm.ns, address);
    key in records && records[key].address == address && records[key].vmRef == vm.name
  }

  ghost predicate AddressRecordsKept(before: Records, after: Records) {
    forall key :: key in before && IsAddress(key.name) ==> key in after && after[key] == before[key]
  }

  // Granting a fresh address adds one record and keeps those there were.
  lemma FreshGrantAdds(recs: Records, d: Device, g: Grant, vm: VmId)
    requires Named(recs) && Picks(d, Addresses(recs), g)
    ensures var after := WithRecord(recs, vm, g.ip);
            && Named(after) && AddressRecordsKept(recs, after)
            && (IsAddress(g.ip) ==> g.ip !in Addresses(recs))
            && RecordedFor(after, vm, g.ip)
  {
    if IsAddress(g.ip) {
      PickedAddressIsFreeAndListed(d, Addresses(recs), g);
      var key := RecordKey(vm.ns, g.ip);
      assert forall k :: k in recs ==> recs[k].address in Addresses(recs);
    }
  }

  lemma KeptRecordsKeepAddresses(before: Records, after: Records)
    requires Named(before) && Named(after) && AddressRecordsKept(before, after)
    ensures forall a :: a in Addresses(before) && IsAddress(a) ==> a in Addresses(after)
  {
  }

  lemma ExtendAssigned(was: seq<Nic>, mid: seq<Nic>, now: seq<Nic>, devices: seq<Device>, n: nat,
                       before: Records, recs: Records, after: Records, vm: VmId)
    requires |was| == |mid| == |now| == |devices| && 1 <= n < |was|
    requires Named(before) && Named(recs) && AssignedAddresses(was, mid, devices, n, before, recs, vm)
    requires now == mid[n := now[n]]
    requires Picks(devices[n], Addresses(recs), Grant(now[n].ip, now[n].netmask))
    requires after == WithRecord(recs, vm, now[n].ip)
    ensures Named(after) && AssignedAddresses(was, now, devices, n + 1, before, after, vm)
  {
    FreshGrantAdds(recs, devices[n], Grant(now[n].ip, now[n].netmask), vm);
    KeptRecordsKeepAddresses(before, recs);
    forall j | GivenAddress(was, now, devices, j, n + 1)
      ensures now[j].ip !in Addresses(before) && RecordedFor(after, vm, now[j].ip)
      ensures j < n ==> now[j].ip in Addresses(recs)
    {
      if j < n {
        assert GivenAddress(was, mid, devices, j, n);
        var key := RecordKey(vm.ns, mid[j].ip);
        assert recs[key].address in Addresses(recs);
      }
    }
    forall j, k | GivenAddress(was, now, devices, j, n + 1) && GivenAddress(was, now, devices, k, n + 1) && j != k
      ensures now[j].ip != now[k].ip
    {
      if j < n && k < n {
        assert GivenAddress(was, mid, devices, j, n) && GivenAddress(was, mid, devices, k, n);
      }
    }
  }

  // Every NIC the pass configured has an address, unless its pool had no room for
  // some set of addresses between those recorded before and after the pass.
  ghost predicate AddressUnlessFull(was: seq<Nic>, now: seq<Nic>, devices: seq<Device>, n: nat,
                                    before: Records, after: Records)
    requires |was| == |now| == |devices|
  {
    && Addresses(before) <= Addresses(after)
    && forall j :: 1 <= j < n <= |was| && NeedsAddress(was[j], devices[j]) && !IsAddress(now[j].ip)
         ==> FullBetween(devices[j], before, after)
  }

  ghost predicate FullBetween(d: Device, before: Records, after: Records) {
    exists taken :: Addresses(before) <= taken <= Addresses(after) && !PoolHasRoom(d, taken)
  }

  lemma ExtendUnlessFull(was: seq<Nic>, mid: seq<Nic>, now: seq<Nic>, devices: seq<Device>, n: nat,
                         before: Records, recs: Records, after: Records, vm: VmId)
    requires |was| == |mid| == |now| == |devices| && 1 <= n < |was|
    requires Named(recs) && AddressUnlessFull(was, mid, devices, n, before, recs)
    requires now == mid[n := now[n]]
    requires Picks(devices[n], Addresses(recs), Grant(now[n].ip, now[n].netmask))
    requires after == WithRecord(recs, vm, now[n].ip)
    ensures AddressUnlessFull(was, now, devices, n + 1, before, after)
  {
    forall a | a in Addresses(recs) ensures a in Addresses(after) {
      var k :| k in recs && recs[k].address == a;
      assert after[k].address == a;
    }
    forall j | 1 <= j < n + 1 && NeedsAddress(was[j], devices[j]) && !IsAddress(now[j].ip)
      ensures FullBetween(devices[j], before, after)
    {
      if j < n {
        var taken :| Addresses(before) <= taken <= Addresses(recs) && !PoolHasRoom(devices[j], taken);
        assert taken <= Addresses(after);
      } else {
        GrantsAddressInEveryOrder(devices[n], Addresses(recs));
        assert !PoolHasRoom(devices[n], Addresses(recs));
      }
    }
  }

  // ------------------------------------------------ a condition before the pass

  ghost predicate IsOffered(d: Device, a: string) {
    exists e :: e in Entries(d) && Offers(e, a)
  }

  // The pass records nothing but the addresses it gives, and gives each NIC an
  // address of its own device's pool.
  ghost predicate GivesOnlyOffered(was: seq<Nic>, now: seq<Nic>, devices: seq<Device>, n: nat,
                                   before: Records, after: Records)
    requires |was| == |now| == |devices|
  {
    && (forall a :: a in Addresses(after) && IsAddress(a) && a !in Addresses(before) ==>
          exists j :: GivenAddress(was, now, devices, j, n) && now[j].ip == a)
    && (forall j :: GivenAddress(was, now, devices, j, n) ==> IsOffered(devices[j], now[j].ip))
  }

  lemma ExtendOffered(was: seq<Nic>, mid: seq<Nic>, now: seq<Nic>, devices: seq<Device>, n: nat,
                      before: Records, recs: Records, after: Records, vm: VmId)
    requires |was| == |mid| == |now| == |devices| && 1 <= n < |was| && NeedsAddress(was[n], devices[n])
    requires GivesOnlyOffered(was, mid, devices, n, before, recs)
    requires now == mid[n := now[n]]
    requires Picks(devices[n], Addresses(recs), Grant(now[n].ip, now[n].netmask))
    requires after == WithRecord(recs, vm, now[n].ip)
    ensures GivesOnlyOffered(was, now, devices, n + 1, before, after)
  {
    forall a | a in Addresses(after) && IsAddress(a) && a !in Addresses(before)
      ensures exists j :: GivenAddress(was, now, devices, j, n + 1) && now[j].ip == a
    {
      if a == now[n].ip {
        assert GivenAddress(was, now, devices, n, n + 1);
      } else {
        var k :| k in after && after[k].address == a;
        assert recs[k].address == a;
        var j :| GivenAddress(was, mid, devices, j, n) && mid[j].ip == a;
        assert GivenAddress(was, now, devices, j, n + 1) && now[j].ip == a;
      }
    }
    forall j | GivenAddress(was, now, devices, j, n + 1) ensures IsOffered(devices[j], now[j].ip) {
      if j < n {
        assert GivenAddress(was, mid, devices, j, n);
      } else {
        PickedAddressIsFreeAndListed(devices[n], Addresses(recs), Grant(now[n].ip, now[n].netmask));
      }
    }
  }

  // What a pass establishes when its calls succeed.
  ghost predicate PassFacts(was: seq<Nic>, now: seq<Nic>, devices: seq<Device>, n: nat,
                            before: Records, after: Records, vm: VmId)
    requires |was| == |now| == |devices|
  {
    && AssignedAddresses(was, now, devices, n, before, after, vm)
    && AddressUnlessFull(was, now, devices, n, before, after)
    && GivesOnlyOffered(was, now, devices, n, before, after)
  }

  lemma ExtendPass(was: seq<Nic>, mid: seq<Nic>, now: seq<Nic>, devices: seq<Device>, n: nat,
                   before: Records, recs: Records, after: Records, vm: VmId)
    requires |was| == |mid| == |now| == |devices| && 1 <= n < |was| && NeedsAddress(was[n], devices[n])
    requires Named(before) && Named(recs) && PassFacts(was, mid, devices, n, before, recs, vm)
    requires now == mid[n := now[n]]
    requires Picks(devices[n], Addresses(recs), Grant(now[n].ip, now[n].netmask))
    requires after == WithRecord(recs, vm, now[n].ip)
    ensures PassFacts(was, now, devices, n + 1, before, after, vm)
  {
    ExtendAssigned(was, mid, now, devices, n, before, recs, after, vm);
    ExtendUnlessFull(was, mid, now, devices, n, before, recs, after, vm);
    ExtendOffered(was, mid, now, devices, n, before, recs, after, vm);
  }

  // The free addresses of a block, and the free static entries of a device.
  ghost function FreeIn(c: Cidr, taken: set<string>): set<string>
    requires c.Valid()
  {
    set v | First(c) <= v < First(c) + Size(c) && TextOf(v) !in taken :: TextOf(v)
  }

  function FreeStatics(d: Device, taken: set<string>): set<string> {
    set e | e in Entries(d) && KindOf(e) == Some(Static) && e !in taken
  }

  predicate HasBlock(d: Device) {
    exists e :: e in Entries(d) && KindOf(e) == Some(Block)
  }

  // Every listed block has k free addresses; without a block, k static entries are.
  ghost predicate RoomFor(d: Device, taken: set<string>, k: nat) {
    && (forall e :: e in Entries(d) && KindOf(e) == Some(Block) ==> |FreeIn(ParseCIDR(e).value, taken)| >= k)
    && (HasBlock(d) || |FreeStatics(d, taken)| >= k)
  }

  // The other NICs that need an address, and whose pools offer one of j's.
  ghost predicate Rival(was: seq<Nic>, devices: seq<Device>, j: int, k: int)
    requires |was| == |devices| && 0 <= j < |was|
  {
    && 1 <= k < |was| && k != j && NeedsAddress(was[k], devices[k])
    && exists a :: IsOffered(devices[j], a) && IsOffered(devices[k], a)
  }

  ghost function Rivals(was: seq<Nic>, devices: seq<Device>, j: int): set<int>
    requires |was| == |devices| && 0 <= j < |was|
  {
    set k | 1 <= k < |was| && Rival(was, devices, j, k)
  }

  // Each pool has room for its NIC and its rivals.
  ghost predicate EnoughRoom(was: seq<Nic>, devices: seq<Device>, recorded: set<string>) {
    |was| == |devices| && forall j :: 1 <= j < |was| && NeedsAddress(was[j], devices[j]) ==>
      RoomFor(devices[j], recorded, |Rivals(was, devices, j)| + 1)
  }

  // Fewer lost addresses than there is room for leave the pool its room.
  lemma RoomStays(d: Device, before: set<string>, taken: set<string>, k: nat, lost: set<string>)
    requires RoomFor(d, before, k) && |lost| < k
    requires forall a :: a in taken && a !in before && IsAddress(a) && IsOffered(d, a) ==> a in lost
    ensures PoolHasRoom(d, taken)
  {
    forall e | e in Entries(d) && KindOf(e) == Some(Block) ensures !Exhausted(e, taken) && !Skipped(e, taken) {
      var t := OneLeft(FreeIn(ParseCIDR(e).value, before), lost);
      var c := ParseCIDR(e).value;
      var v :| First(c) <= v < First(c) + Size(c) && TextOf(v) !in before && TextOf(v) == t;
      TextIsOffered(e, v);
      assert IsOffered(d, t);
    }
    if HasBlock(d) {
      var e :| e in Entries(d) && KindOf(e) == Some(Block);
      assert !Skipped(e, taken);
    } else {
      var e := OneLeft(FreeStatics(d, before), lost);
      assert Offers(e, e) && IsOffered(d, e);
      assert !Skipped(e, taken);
    }
  }

  lemma OneLeft(a: set<string>, lost: set<string>) returns (t: string)
    requires |a| > |lost|
    ensures t in a && t !in lost
  {
    if a <= lost { SubsetSize(a, lost); }
    t :| t in a && t !in lost;
  }

  lemma TextIsOffered(e: string, v: nat)
    requires KindOf(e) == Some(Block)
    requires var c := ParseCIDR(e).value; First(c) <= v < First(c) + Size(c)
    ensures IsAddress(TextOf(v)) && Offers(e, TextOf(v))
  {
    var c := ParseCIDR(e).value;
    BlockFacts(c, Masked(c.addr, MaskBytes(c.prefix, 4)));
    ValueOfFromValue(v, 4);
    ParseTextRoundTrip(TextOf(v), FromValue(v, 4));
  }

  function IpsOf(now: seq<Nic>, ks: set<int>): set<string>
    requires forall k :: k in ks ==> 0 <= k < |now|
  {
    set k | k in ks :: now[k].ip
  }

  lemma {:induction false} IpsCount(now: seq<Nic>, ks: set<int>)
    requires forall k :: k in ks ==> 0 <= k < |now|
    ensures |IpsOf(now, ks)| <= |ks|
  {
    if k: int :| k in ks {
      IpsCount(now, ks - {k});
      assert IpsOf(now, ks) == IpsOf(now, ks - {k}) + {now[k].ip};
    } else {
      assert IpsOf(now, ks) == {};
    }
  }

  lemma EveryNicGetsAddress(was: seq<Nic>, now: seq<Nic>, devices: seq<Device>,
                            before: Records, after: Records, vm: VmId)
    requires |was| == |now| == |devices| && PassFacts(was, now, devices, |was|, before, after, vm)
    requires EnoughRoom(was, devices, Addresses(before))
    ensures forall j :: 1 <= j < |was| && NeedsAddress(was[j], devices[j]) ==> IsAddress(now[j].ip)
  {
    forall j | 1 <= j < |was| && NeedsAddress(was[j], devices[j]) ensures IsAddress(now[j].ip) {
      if !IsAddress(now[j].ip) {
        var taken :| Addresses(before) <= taken <= Addresses(after) && !PoolHasRoom(devices[j], taken);
        var rivals := Rivals(was, devices, j);
        IpsCount(now, rivals);
        forall a | a in taken && a !in Addresses(before) && IsAddress(a) && IsOffered(devices[j], a)
          ensures a in IpsOf(now, rivals)
        {
          var k :| GivenAddress(was, now, devices, k, |was|) && now[k].ip == a;
          assert Rival(was, devices, j, k);
        }
        RoomStays(devices[j], Addresses(before), taken, |rivals| + 1, IpsOf(now, rivals));
      }
    }
  }

  // When an edit fails, the pass after it gives other addresses, and those of the
  // first one stay recorded although no NIC has them.
  lemma FailedEditLeaksAddresses(was: seq<Nic>, first: seq<Nic>, second: seq<Nic>, devices: seq<Device>,
                                 r0: Records, r1: Records, r2: Records, vm: VmId, j: int, k: int)
    requires |was| == |first| == |second| == |devices| && Named(r1) && Named(r2)
    requires PassFacts(was, first, devices, |was|, r0, r1, vm) && PassFacts(was, second, devices, |was|, r1, r2, vm)
    requires GivenAddress(was, first, devices, j, |was|) && GivenAddress(was, second, devices, k, |was|)
    ensures first[j].ip != second[k].ip
    ensures RecordedFor(r2, vm, first[j].ip) && RecordedFor(r2, vm, second[k].ip)
  {
    assert RecordedFor(r1, vm, first[j].ip);
    assert r1[RecordKey(vm.ns, first[j].ip)].address in Addresses(r1);
  }
}
