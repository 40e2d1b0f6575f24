// controllers/icscluster_controller.go, reconcileLoadBalancer and
// reconcileControlPlaneEndpoint: how the endpoints of the CAPI Cluster and of the
// ICSCluster move.
module ControlPlaneEndpoint {
  import opened Wrappers

  datatype Endpoint = Endpoint(host: string, port: int) {
    predicate IsZero() {
      host == "" && port == 0
    }
  }

  const LOOPBACK := "127.0.0.1"
  const DEFAULT_PORT := 6443

  // The endpoint fields of the two objects.
  datatype Fields = Fields(cluster: Endpoint, ics: Endpoint, loadBalanced: bool)

  // A control-plane ICSMachine: whether its Machine has bootstrap data, and its
  // preferred address; None when it has none.
  datatype Member = Member(bootstrapped: bool, address: Option<string>)

  // What one reconcile meets; a failed list comes without machines and is only
  // "not yet". machineError: an error that ends the scan.
  datatype Weather = Weather(listed: bool, members: seq<Member>, machineError: bool,
                             clusterRead: bool, clusterPatched: bool, secretUpdated: bool)

  datatype Verdict = Done | NotYet | Failed

  // The hosts of the members that have bootstrap data and an address, in order.
  function Addresses(members: seq<Member>): seq<string> {
    if members == [] then []
    else
      var m := members[|members| - 1];
      Addresses(members[..|members| - 1]) + if m.bootstrapped && m.address.Some? then [m.address.value] else []
  }

  function AfterLoadBalancer(f: Fields): Fields {
    var ics := if !f.cluster.IsZero() then f.cluster else f.ics;
    var host := if ics.IsZero() then LOOPBACK else ics.host;
    var lb := if ics.IsZero() then false else if ics.host != LOOPBACK then true else f.loadBalanced;
    f.(ics := Endpoint(host, if ics.port == 0 then DEFAULT_PORT else ics.port), loadBalanced := lb)
  }

  function AfterEndpoint(f: Fields, w: Weather): (Fields, Verdict) {
    if f.loadBalanced then
      if !f.cluster.IsZero() then (f.(ics := f.cluster), Done)
      else if !f.ics.IsZero() then (f, Done)
      else (f, Failed)
    else if !w.listed then (f, NotYet)
    else if w.machineError then (f, Failed)
    else if Addresses(w.members) == [] then (f, NotYet)
    else
      var f1 := f.(ics := Endpoint(Addresses(w.members)[0], DEFAULT_PORT));
      if !w.clusterRead then (f1, NotYet)
      else if f1.ics == f1.cluster then (f1, Done)
      else if !w.clusterPatched then (f1, Failed)
      else (f1.(cluster := f1.ics), if w.secretUpdated then Done else Failed)
  }

  function Reconciled(f: Fields, w: Weather): (Fields, Verdict) {
    AfterEndpoint(AfterLoadBalancer(f), w)
  }

  class EndpointReconciler {
    var cluster: Endpoint
    var ics: Endpoint
    var loadBalanced: bool

    function View(): Fields
      reads this
    {
      Fields(cluster, ics, loadBalanced)
    }

    constructor (f: Fields)
      ensures View() == f
    {
      cluster, ics, loadBalanced := f.cluster, f.ics, f.loadBalanced;
    }

    method ReconcileLoadBalancer()
      modifies this
      ensures View() == AfterLoadBalancer(old(View()))
    {
      if !cluster.IsZero() {
        ics := ics.(host := cluster.host);
        ics := ics.(port := cluster.port);
      }
      if ics.IsZero() {
        ics := ics.(host := LOOPBACK);
        loadBalanced := false;
      } else if ics.host != LOOPBACK {
        loadBalanced := true;
      }
      if ics.port == 0 {
        ics := ics.(port := DEFAULT_PORT);
      }
    }

    method ReconcileControlPlaneEndpoint(w: Weather) returns (v: Verdict)
      modifies this
      ensures (View(), v) == AfterEndpoint(old(View()), w)
    {
      if loadBalanced {
        if !cluster.IsZero() {
          ics := cluster;
          return Done;
        }
        if !ics.IsZero() {
          return Done;
        }
        return Failed;
      }
      if !w.listed {
        return NotYet;
      }
      var apiEndpointList: seq<string> := [];
      for i := 0 to |w.members|
        invariant apiEndpointList == Addresses(w.members[..i])
      {
        assert w.members[..i + 1][..i] == w.members[..i];
        if !w.members[i].bootstrapped {
          continue;
        }
        if w.members[i].address.None? {
          continue;
        }
        apiEndpointList := apiEndpointList + [w.members[i].address.value];
      }
      assert w.members[..|w.members|] == w.members;
      if w.machineError {
        return Failed;
      }
      if apiEndpointList == [] {
        return NotYet;
      }
      ics := Endpoint(apiEndpointList[0], DEFAULT_PORT);
      if !w.clusterRead {
        return NotYet;
      }
      if ics.host != cluster.host || ics.port != cluster.port {
        if !w.clusterPatched {
          return Failed;
        }
        cluster := ics;
        if !w.secretUpdated {
          return Failed;
        }
      }
      return Done;
    }

    method Reconcile(w: Weather) returns (v: Verdict)
      modifies this
      ensures (View(), v) == Reconciled(old(View()), w)
    {
      ReconcileLoadBalancer();
      v := ReconcileControlPlaneEndpoint(w);
    }
  }

  // -------------------------------------------------------------------- runs

  datatype Step =
    | Reconcile(w: Weather)
    // CAPI copies a valid ICSCluster endpoint to a Cluster that has none.
    | CapiCopies

  function Take(f: Fields, s: Step): Fields {
    match s
    case Reconcile(w) => Reconciled(f, w).0
    case CapiCopies => if f.cluster.IsZero() && !f.ics.IsZero() then f.(cluster := f.ics) else f
  }

  function Run(f: Fields, steps: seq<Step>): Fields {
    if steps == [] then f else Take(Run(f, steps[..|steps| - 1]), steps[|steps| - 1])
  }

  // The Cluster has an endpoint other than the placeholder.
  predicate Settled(e: Endpoint) {
    !e.IsZero() && e.host != LOOPBACK
  }

  // The endpoint that counts: the Cluster's, or when that is unset the ICSCluster's.
  function Given(f: Fields): Endpoint {
    if f.cluster != Endpoint("", 0) then f.cluster else f.ics
  }

  // A load balancer is in use: an endpoint is given whose host is not the
  // placeholder, or is while the flag is already set.
  predicate Balanced(f: Fields) {
    Given(f) != Endpoint("", 0) && (Given(f).host != "127.0.0.1" || f.loadBalanced)
  }

  predicate HasAddress(m: Member) {
    m.bootstrapped && m.address.Some?
  }

  predicate IsFirst(members: seq<Member>, i: int) {
    0 <= i < |members| && HasAddress(members[i]) && forall j :: 0 <= j < i ==> !HasAddress(members[j])
  }

  // The machines' addresses are collected in order: the first is that of the first
  // machine with bootstrap data and an address.
  lemma {:induction false} FirstAddressExactly(members: seq<Member>)
    ensures Addresses(members) == [] ==> forall j :: 0 <= j < |members| ==> !HasAddress(members[j])
    ensures Addresses(members) != [] ==>
              exists i :: IsFirst(members, i) && members[i].address == Some(Addresses(members)[0])
  {
    if members != [] {
      var init := members[..|members| - 1];
      FirstAddressExactly(init);
      if Addresses(init) != [] {
        var i :| IsFirst(init, i) && init[i].address == Some(Addresses(init)[0]);
        assert IsFirst(members, i) && members[i] == init[i];
      } else if HasAddress(members[|init|]) {
        assert forall j :: 0 <= j < |init| ==> members[j] == init[j];
        assert IsFirst(members, |init|);
      }
    }
  }

  // A machine's address is there to be taken.
  predicate Offers(w: Weather) {
    w.listed && !w.machineError && Addresses(w.members) != []
  }

  function FirstOffer(w: Weather): Endpoint
    requires Offers(w)
  {
    Endpoint(Addresses(w.members)[0], 6443)
  }

  // One reconcile changes the Cluster's endpoint exactly when no load balancer is in
  // use, some control-plane machine has an address that differs from it, and the
  // Cluster can be read and patched; the new endpoint is then the first such
  // machine's. Then the old one was unset or the placeholder.
  lemma ChangesExactly(f: Fields, w: Weather)
    ensures var f' := Reconciled(f, w).0;
            && (f'.cluster != f.cluster
                <==> !Balanced(f) && Offers(w) && w.clusterRead && w.clusterPatched && f.cluster != FirstOffer(w))
            && (f'.cluster != f.cluster ==> !Settled(f.cluster) && f'.cluster == FirstOffer(w))
  {
  }

  // A balanced cluster's reconcile succeeds, and changes nothing but the flag and the
  // ICSCluster's endpoint, which becomes the given one: with the default port for
  // none, unless the Cluster has it without one.
  lemma BalancedExactly(f: Fields, w: Weather)
    requires Balanced(f)
    ensures Reconciled(f, w)
            == (Fields(f.cluster,
                       if f.cluster != Endpoint("", 0) || f.ics.port != 0 then Given(f) else Endpoint(f.ics.host, 6443),
                       true), Done)
  {
  }

  // Any other reconcile sets the ICSCluster's endpoint to the first machine's, and
  // without one to the placeholder; it clears the flag; and its verdict tells how far
  // it came.
  lemma UnbalancedExactly(f: Fields, w: Weather)
    requires !Balanced(f)
    ensures var (f', v) := Reconciled(f, w);
            && !f'.loadBalanced
            && f'.ics == (if Offers(w) then FirstOffer(w)
                          else Endpoint("127.0.0.1", if Given(f).port == 0 then 6443 else Given(f).port))
            && (v == Done <==> && Offers(w) && w.clusterRead
                               && (f.cluster == FirstOffer(w) || (w.clusterPatched && w.secretUpdated)))
            && (v == Failed <==> w.listed && (w.machineError
                                 || (Offers(w) && w.clusterRead && f.cluster != FirstOffer(w)
                                     && !(w.clusterPatched && w.secretUpdated))))
  {
  }

  // An endpoint that the user gave the ICSCluster, while the Cluster has none, is kept
  // by every reconcile, which succeeds; its port is the default one if it had none.
  lemma GivenEndpointIsTaken(f: Fields, w: Weather)
    requires f.cluster == Endpoint("", 0) && f.ics != Endpoint("", 0) && f.ics.host != "127.0.0.1"
    ensures Reconciled(f, w)
            == (Fields(Endpoint("", 0), Endpoint(f.ics.host, if f.ics.port == 0 then 6443 else f.ics.port), true), Done)
  {
  }

  // So over every run, with whatever machines, the ICSCluster keeps it, and the
  // Cluster never has another.
  lemma {:induction false} GivenEndpointStays(f: Fields, steps: seq<Step>)
    requires f.cluster == Endpoint("", 0) && f.ics.host != "127.0.0.1" && f.ics.port != 0
    ensures var g := Run(f, steps); g.ics == f.ics && g.cluster in {Endpoint("", 0), f.ics}
  {
    if steps != [] {
      GivenEndpointStays(f, steps[..|steps| - 1]);
    }
  }

  // Once settled, the Cluster's endpoint never changes, whatever machines come and
  // go.
  lemma {:induction false} SettledForever(f: Fields, steps: seq<Step>)
    requires Settled(f.cluster)
    ensures Run(f, steps).cluster == f.cluster
  {
    if steps != [] {
      SettledForever(f, steps[..|steps| - 1]);
    }
  }

  // After every reconcile that succeeds, the ICSCluster's endpoint is set, and equals
  // the Cluster's whenever that is.
  lemma SuccessAligns(f: Fields, w: Weather)
    requires Reconciled(f, w).1 == Done
    ensures var f' := Reconciled(f, w).0;
            && (!f'.cluster.IsZero() ==> f'.ics == f'.cluster)
            && (Settled(f.cluster) ==> f'.ics == f.cluster)
            && !f'.ics.IsZero()
  {
  }

  function Rank(e: Endpoint): nat {
    if e.IsZero() then 0 else if e.host == LOOPBACK then 1 else 2
  }

  // A cluster that starts without any endpoint: its Cluster moves only from unset
  // to the placeholder to one machine address, and never back.
  lemma {:induction false} MovesForward(f: Fields, steps: seq<Step>, n: nat)
    requires n <= |steps|
    ensures var before, after := Run(f, steps[..n]).cluster, Run(f, steps).cluster;
            && Rank(before) <= Rank(after)
            && (Rank(before) == 2 ==> after == before)
    decreases |steps|
  {
    if n == |steps| {
      assert steps[..n] == steps;
    } else {
      var init := steps[..|steps| - 1];
      MovesForward(f, init, n);
      assert init[..n] == steps[..n];
    }
  }

  // The addresses that the control-plane machines ever offer in a run.
  function Offered(steps: seq<Step>): set<string> {
    set s, a | s in steps && s.Reconcile? && a in Addresses(s.w.members) :: a
  }

  // From an unset start, every endpoint the Cluster takes is unset, the
  // placeholder, or the address of a control-plane machine with the default port.
  lemma {:induction false} OnlyPlaceholderOrMachine(steps: seq<Step>)
    ensures var f := Run(Fields(Endpoint("", 0), Endpoint("", 0), false), steps);
            && Allowed(f.cluster, steps) && Allowed(f.ics, steps)
  {
    if steps != [] {
      var init, last := steps[..|steps| - 1], steps[|steps| - 1];
      OnlyPlaceholderOrMachine(init);
      assert steps == init + [last];
      assert Offered(init) <= Offered(steps);
      if last.Reconcile? && Addresses(last.w.members) != [] {
        assert last in steps && Addresses(last.w.members)[0] in Addresses(last.w.members);
      }
    }
  }

  predicate Allowed(e: Endpoint, steps: seq<Step>) {
    e.IsZero() || (e.port == DEFAULT_PORT && (e.host == LOOPBACK || e.host in Offered(steps)))
  }
}
