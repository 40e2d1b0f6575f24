// pkg/services/goclient/icenter/icenter.go, getAvailableHosts: placement by
// counting, for each host, the networks that list it.
module HostPlacement {
  import opened Wrappers

  datatype Host = Host(id: string, connected: bool, clusterID: string, logicFreeMemory: int)

  datatype SwitchType = NormalSwitch | LocalSDNSwitch | ExtSDNSwitch | OtherSwitch

  datatype Network = Network(id: string, switchType: SwitchType)

  // What the host service answers; None for an error.
  datatype HostService = HostService(
    all: Option<seq<Host>>, byStorage: Option<seq<Host>>,
    byNetwork: string -> Option<seq<Host>>, byExtSdn: string -> Option<seq<Host>>)

  // The hosts one network lists. An unknown switch type lists none.
  function NetworkHosts(s: HostService, n: Network): Option<seq<Host>> {
    match n.switchType
    case NormalSwitch | LocalSDNSwitch => s.byNetwork(n.id)
    case ExtSDNSwitch => s.byExtSdn(n.id)
    case OtherSwitch => Some([])
  }

  predicate ServiceWorks(s: HostService, networks: seq<Network>) {
    s.all.Some? && s.byStorage.Some? && forall n :: n in networks ==> NetworkHosts(s, n).Some?
  }

  predicate Lists(hosts: seq<Host>, id: string) {
    exists h :: h in hosts && h.id == id
  }

  // How often a list names a host.
  function Occurrences(hosts: seq<Host>, id: string): nat {
    if hosts == [] then 0
    else Occurrences(hosts[..|hosts| - 1], id) + if hosts[|hosts| - 1].id == id then 1 else 0
  }

  function Bounds(s: HostService, networks: seq<Network>, id: string): nat
    requires forall n :: n in networks ==> NetworkHosts(s, n).Some?
  {
    if networks == [] then 0
    else Bounds(s, networks[..|networks| - 1], id) + Occurrences(NetworkHosts(s, networks[|networks| - 1]).value, id)
  }

  predicate InRequestedCluster(h: Host, clusterID: string) {
    h.id != "" && h.connected && (clusterID == "" || h.clusterID == clusterID)
  }

  // What the code's counters select.
  predicate Counted(s: HostService, networks: seq<Network>, clusterID: string, memory: int, h: Host)
    requires ServiceWorks(s, networks)
  {
    && h in s.all.value && InRequestedCluster(h, clusterID)
    && Lists(s.byStorage.value, h.id)
    && Bounds(s, networks, h.id) == |networks| > 0
    && h.logicFreeMemory > memory
  }

  // What placement promises.
  predicate Eligible(s: HostService, networks: seq<Network>, clusterID: string, memory: int, h: Host)
    requires ServiceWorks(s, networks)
  {
    && h in s.all.value && InRequestedCluster(h, clusterID)
    && Lists(s.byStorage.value, h.id)
    && (forall n :: n in networks ==> Lists(NetworkHosts(s, n).value, h.id))
    && h.logicFreeMemory > memory
  }

  // A network's hosts come from the service for its kind of switch.
  predicate AttachedTo(s: HostService, n: Network, id: string) {
    match n.switchType
    case ExtSDNSwitch => s.byExtSdn(n.id).Some? && exists h :: h in s.byExtSdn(n.id).value && h.id == id
    case NormalSwitch | LocalSDNSwitch => s.byNetwork(n.id).Some? && exists h :: h in s.byNetwork(n.id).value && h.id == id
    case OtherSwitch => false
  }

  // Eligible means: listed by iCenter with an id, connected, in the requested cluster
  // if one is requested, attached to the datastore and to every network, and with
  // more free memory than is asked for.
  lemma EligibleExactly(s: HostService, networks: seq<Network>, clusterID: string, memory: int, h: Host)
    requires ServiceWorks(s, networks)
    ensures Eligible(s, networks, clusterID, memory, h)
            <==> && h in s.all.value && h.id != "" && h.connected && (clusterID != "" ==> h.clusterID == clusterID)
                 && (exists g :: g in s.byStorage.value && g.id == h.id)
                 && (forall n :: n in networks ==> AttachedTo(s, n, h.id))
                 && memory < h.logicFreeMemory
  {
  }

  // No network's list names a host twice.
  ghost predicate NoRepeatedHosts(s: HostService, networks: seq<Network>)
    requires ServiceWorks(s, networks)
  {
    forall n, id :: n in networks ==> Occurrences(NetworkHosts(s, n).value, id) <= 1
  }

  // The networks come in whatever order the map yields them.
  method GetAvailableHosts(s: HostService, networks: seq<Network>, clusterID: string, memory: int)
    returns (r: Result<Host>)
    ensures !ServiceWorks(s, networks) ==> r.Err?
    ensures ServiceWorks(s, networks) && r.Ok? ==> Counted(s, networks, clusterID, memory, r.value)
    ensures ServiceWorks(s, networks) && r.Err? ==> forall h :: !Counted(s, networks, clusterID, memory, h)
    ensures ServiceWorks(s, networks) && NoRepeatedHosts(s, networks) && networks != [] ==>
              if r.Ok? then Eligible(s, networks, clusterID, memory, r.value)
              else forall h :: !Eligible(s, networks, clusterID, memory, h)
  {
    if ServiceWorks(s, networks) && NoRepeatedHosts(s, networks) {
      forall h ensures Counted(s, networks, clusterID, memory, h)
                       <==> networks != [] && Eligible(s, networks, clusterID, memory, h) {
        CountingIsExact(s, networks, clusterID, memory, h);
      }
    }
    if s.all.None? {
      return Err("host list");
    }
    var hosts := FilterHosts(s.all.value, clusterID);
    if s.byStorage.None? {
      return Err("storage hosts");
    }
    var storageHostsIndex := Index(s.byStorage.value);
    var hostBounds: map<string, nat> := map[];
    for i := 0 to |networks|
      invariant forall n :: n in networks[..i] ==> NetworkHosts(s, n).Some?
      invariant CountsAre(hostBounds, s, networks[..i])
    {
      assert networks[..i + 1] == networks[..i] + [networks[i]] && networks[..i + 1][..i] == networks[..i];
      var networkHosts := NetworkHosts(s, networks[i]);
      if networkHosts.None? {
        assert networks[i] in networks;
        return Err("network hosts");
      }
      hostBounds := AddCounts(hostBounds, networkHosts.value);
    }
    assert networks[..|networks|] == networks;
    var totalBounds := |networks|;
    var networkHostsIndex := set id | id in hostBounds && hostBounds[id] == totalBounds;
    var availableHosts: seq<Host> := [];
    for i := 0 to |hosts|
      invariant forall h :: h in availableHosts <==>
                  h in hosts[..i] && h.id in storageHostsIndex && h.id in networkHostsIndex && h.logicFreeMemory > memory
    {
      var h := hosts[i];
      if h.id in storageHostsIndex && h.id in networkHostsIndex {
        if h.logicFreeMemory > memory {
          availableHosts := availableHosts + [h];
        }
      }
    }
    assert hosts[..|hosts|] == hosts;
    if |availableHosts| > 0 {
      var index :| 0 <= index < |availableHosts|;
      assert availableHosts[index] in availableHosts;
      return Ok(availableHosts[index]);
    }
    assert forall h :: h !in availableHosts;
    return Err("No hosts meet the scheduling conditions");
  }

  method FilterHosts(hostList: seq<Host>, clusterID: string) returns (hosts: seq<Host>)
    ensures forall h :: h in hosts <==> h in hostList && InRequestedCluster(h, clusterID)
  {
    hosts := [];
    for i := 0 to |hostList|
      invariant forall h :: h in hosts <==> h in hostList[..i] && InRequestedCluster(h, clusterID)
    {
      if hostList[i].id == "" || !hostList[i].connected {
        continue;
      }
      if clusterID != "" && hostList[i].clusterID != clusterID {
        continue;
      }
      hosts := hosts + [hostList[i]];
    }
    assert hostList[..|hostList|] == hostList;
  }

  method Index(hosts: seq<Host>) returns (ids: set<string>)
    ensures forall id :: id in ids <==> id != "" && Lists(hosts, id)
  {
    ids := {};
    for i := 0 to |hosts|
      invariant forall id :: id in ids <==> id != "" && Lists(hosts[..i], id)
    {
      assert hosts[..i + 1] == hosts[..i] + [hosts[i]];
      assert hosts[i] in hosts[..i + 1];
      if hosts[i].id != "" {
        ids := ids + {hosts[i].id};
      }
    }
    assert hosts[..|hosts|] == hosts;
  }

  // A host has a counter once it has been listed, and it counts its listings.
  ghost predicate CountsAre(bounds: map<string, nat>, s: HostService, networks: seq<Network>)
    requires forall n :: n in networks ==> NetworkHosts(s, n).Some?
  {
    "" !in bounds && forall id :: id != "" ==>
      (if id in bounds then bounds[id] else 0) == Bounds(s, networks, id) && (id in bounds ==> bounds[id] > 0)
  }

  method AddCounts(bounds: map<string, nat>, networkHosts: seq<Host>) returns (hostBounds: map<string, nat>)
    requires "" !in bounds
    ensures "" !in hostBounds
    ensures forall id :: id != "" ==>
              && (if id in hostBounds then hostBounds[id] else 0)
                 == (if id in bounds then bounds[id] else 0) + Occurrences(networkHosts, id)
              && ((id in bounds ==> bounds[id] > 0) ==> (id in hostBounds ==> hostBounds[id] > 0))
  {
    hostBounds := bounds;
    for i := 0 to |networkHosts|
      invariant "" !in hostBounds
      invariant forall id :: id != "" ==>
                  && (if id in hostBounds then hostBounds[id] else 0)
                     == (if id in bounds then bounds[id] else 0) + Occurrences(networkHosts[..i], id)
                  && ((id in bounds ==> bounds[id] > 0) ==> (id in hostBounds ==> hostBounds[id] > 0))
    {
      var id := networkHosts[i].id;
      assert networkHosts[..i + 1][..i] == networkHosts[..i];
      if id != "" {
        hostBounds := hostBounds[id := (if id in hostBounds then hostBounds[id] else 0) + 1];
      }
    }
    assert networkHosts[..|networkHosts|] == networkHosts;
  }

  // ------------------------------------------------- counting is membership

  lemma {:induction false} ListsIsOccurs(hosts: seq<Host>, id: string)
    ensures Lists(hosts, id) <==> Occurrences(hosts, id) > 0
  {
    if hosts != [] {
      var rest, last := hosts[..|hosts| - 1], hosts[|hosts| - 1];
      assert hosts == rest + [last];
      ListsIsOccurs(rest, id);
      if last.id == id { assert last in hosts; }
      if Lists(rest, id) {
        var h :| h in rest && h.id == id;
        assert h in hosts;
      }
    }
  }

  // With no repeats, a count never exceeds the number of networks, and reaches it
  // exactly for hosts that every network lists.
  lemma {:induction false} FullCountIsMembership(s: HostService, networks: seq<Network>, id: string)
    requires ServiceWorks(s, networks) && NoRepeatedHosts(s, networks)
    ensures Bounds(s, networks, id) <= |networks|
    ensures Bounds(s, networks, id) == |networks| <==> forall n :: n in networks ==> Lists(NetworkHosts(s, n).value, id)
  {
    if networks != [] {
      var rest, last := networks[..|networks| - 1], networks[|networks| - 1];
      assert networks == rest + [last];
      assert ServiceWorks(s, rest) && NoRepeatedHosts(s, rest);
      FullCountIsMembership(s, rest, id);
      ListsIsOccurs(NetworkHosts(s, last).value, id);
      assert last in networks;
    }
  }

  // With at least one network and no repeats, the counters select exactly the
  // eligible hosts; so the placement of GetAvailableHosts returns an eligible
  // host, and fails exactly when there is none.
  lemma CountingIsExact(s: HostService, networks: seq<Network>, clusterID: string, memory: int, h: Host)
    requires ServiceWorks(s, networks) && NoRepeatedHosts(s, networks)
    ensures Counted(s, networks, clusterID, memory, h)
            <==> networks != [] && Eligible(s, networks, clusterID, memory, h)
  {
    FullCountIsMembership(s, networks, h.id);
  }

  lemma TakeOut(a: seq<Network>, b: seq<Network>) returns (i: nat)
    requires a != [] && multiset(a) == multiset(b)
    ensures i < |b| && b[i] == a[|a| - 1]
    ensures multiset(a[..|a| - 1]) == multiset(b[..i] + b[i + 1..])
  {
    var n := |a| - 1;
    var x := a[n];
    assert x in multiset(a);
    i :| 0 <= i < |b| && b[i] == x;
    RemoveAt(a, n);
    assert a[..n] + a[n + 1..] == a[..n];
    RemoveAt(b, i);
  }

  lemma RemoveAt(b: seq<Network>, i: nat)
    requires i < |b|
    ensures multiset(b[..i] + b[i + 1..]) == multiset(b) - multiset{b[i]}
  {
    assert b == b[..i] + [b[i]] + b[i + 1..];
  }

  // The order in which the map yields the networks does not matter.
  lemma {:induction false} BoundsOfPermutation(s: HostService, a: seq<Network>, b: seq<Network>, id: string)
    requires multiset(a) == multiset(b)
    requires forall n :: n in a ==> NetworkHosts(s, n).Some?
    requires forall n :: n in b ==> NetworkHosts(s, n).Some?
    ensures Bounds(s, a, id) == Bounds(s, b, id)
    decreases |a|
  {
    assert |multiset(a)| == |a| && |multiset(b)| == |b|;
    if a != [] {
      var i := TakeOut(a, b);
      BoundsWithout(s, b, i, id);
      BoundsOfPermutation(s, a[..|a| - 1], b[..i] + b[i + 1..], id);
    }
  }

  lemma {:induction false} BoundsWithout(s: HostService, b: seq<Network>, i: nat, id: string)
    requires i < |b| && forall n :: n in b ==> NetworkHosts(s, n).Some?
    ensures forall n :: n in b[..i] + b[i + 1..] ==> n in b
    ensures Bounds(s, b, id) == Bounds(s, b[..i] + b[i + 1..], id) + Occurrences(NetworkHosts(s, b[i]).value, id)
  {
    var c := b[..i] + b[i + 1..];
    if i == |b| - 1 {
      assert c == b[..i];
    } else {
      BoundsWithout(s, b[..|b| - 1], i, id);
      assert c[..|c| - 1] == b[..|b| - 1][..i] + b[..|b| - 1][i + 1..];
    }
  }

  // A count is at least, and without repeats of this host exactly, what membership
  // gives: one for every network that lists it.
  lemma {:induction false} ListedEverywhereCounts(s: HostService, networks: seq<Network>, id: string)
    requires ServiceWorks(s, networks)
    requires forall n :: n in networks ==> Lists(NetworkHosts(s, n).value, id)
    ensures Bounds(s, networks, id) >= |networks|
    ensures Bounds(s, networks, id) == |networks|
            <==> forall n :: n in networks ==> Occurrences(NetworkHosts(s, n).value, id) == 1
  {
    if networks != [] {
      var rest, last := networks[..|networks| - 1], networks[|networks| - 1];
      assert networks == rest + [last] && last in networks;
      ListedEverywhereCounts(s, rest, id);
      ListsIsOccurs(NetworkHosts(s, last).value, id);
    }
  }

  // An eligible host is selected exactly when no network names it twice.
  lemma EligibleSelectedExactly(s: HostService, networks: seq<Network>, clusterID: string, memory: int, h: Host)
    requires ServiceWorks(s, networks) && networks != [] && Eligible(s, networks, clusterID, memory, h)
    ensures Counted(s, networks, clusterID, memory, h)
            <==> forall n :: n in networks ==> Occurrences(NetworkHosts(s, n).value, h.id) == 1
  {
    ListedEverywhereCounts(s, networks, h.id);
  }

  lemma {:induction false} CountWithoutRepeats(s: HostService, networks: seq<Network>, id: string)
    requires ServiceWorks(s, networks)
    requires forall n :: n in networks ==> Occurrences(NetworkHosts(s, n).value, id) <= 1
    ensures Bounds(s, networks, id) <= |networks|
    ensures (exists n :: n in networks && !Lists(NetworkHosts(s, n).value, id)) ==> Bounds(s, networks, id) < |networks|
  {
    if networks != [] {
      var rest, last := networks[..|networks| - 1], networks[|networks| - 1];
      assert networks == rest + [last] && last in networks;
      CountWithoutRepeats(s, rest, id);
      ListsIsOccurs(NetworkHosts(s, last).value, id);
    }
  }

  // A host that some network does not list is selected exactly when the repeats of
  // the others make up for it; some network then names it twice.
  lemma RepeatsMislead(s: HostService, networks: seq<Network>, clusterID: string, memory: int, h: Host)
    requires ServiceWorks(s, networks) && h in s.all.value && InRequestedCluster(h, clusterID)
    requires Lists(s.byStorage.value, h.id) && h.logicFreeMemory > memory
    requires exists n :: n in networks && !Lists(NetworkHosts(s, n).value, h.id)
    ensures !Eligible(s, networks, clusterID, memory, h)
    ensures Counted(s, networks, clusterID, memory, h) <==> Bounds(s, networks, h.id) == |networks|
    ensures Counted(s, networks, clusterID, memory, h) ==>
              exists n :: n in networks && Occurrences(NetworkHosts(s, n).value, h.id) >= 2
  {
    if forall n :: n in networks ==> Occurrences(NetworkHosts(s, n).value, h.id) <= 1 {
      CountWithoutRepeats(s, networks, h.id);
    }
  }

  // A repeat stands in for a network that does not list the host: two lists, one
  // naming it twice and one not at all.
  lemma TwoRepeatsMislead(s: HostService, a: Network, b: Network, id: string)
    requires ServiceWorks(s, [a, b])
    requires Occurrences(NetworkHosts(s, a).value, id) == 2 && Occurrences(NetworkHosts(s, b).value, id) == 0
    ensures Bounds(s, [a, b], id) == |[a, b]| && !Lists(NetworkHosts(s, b).value, id)
  {
    ListsIsOccurs(NetworkHosts(s, b).value, id);
    assert [a, b][..1] == [a] && [a][..0] == [];
    assert Bounds(s, [a], id) == 2;
  }
}
