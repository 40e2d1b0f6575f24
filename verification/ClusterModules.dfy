// controllers/clustermodule_reconciler.go, Reconcile and fetchMachineOwnerObjects,
// against the Service interface of pkg/clustermodule/interfaces.go.
module ClusterModules {
  import opened Wrappers

  // An entry of ICSCluster.Spec.ClusterModules.
  datatype Module = Module(controlPlane: bool, target: string, uuid: string)

  // A KubeadmControlPlane or a MachineDeployment.
  datatype Owner = Owner(controlPlane: bool, name: string)

  datatype Listed = Listed(name: string, deleted: bool)

  function Key(o: Owner): string {
    if o.controlPlane then "kcp" + o.name else o.name
  }

  function OwnerOf(m: Module): Owner {
    Owner(m.controlPlane, m.target)
  }

  type Objects = map<string, Owner>

  ghost predicate Keyed(objs: Objects) {
    forall k :: k in objs ==> Key(objs[k]) == k
  }

  // ------------------------------------------------------------------ owners

  // The owners that are not marked for deletion.
  function LiveOwners(kcps: seq<Listed>, mds: seq<Listed>): set<Owner> {
    (set l | l in kcps && !l.deleted :: Owner(true, l.name))
    + (set l | l in mds && !l.deleted :: Owner(false, l.name))
  }

  // One of the owners under each key that an owner has, and nothing else.
  ghost predicate HoldsKeysOf(objs: Objects, owners: set<Owner>) {
    && Keyed(objs)
    && (forall k :: k in objs ==> objs[k] in owners)
    && (forall o :: o in owners ==> Key(o) in objs)
  }

  // No live MachineDeployment is named "kcp" and then the control plane's name.
  ghost predicate NoCollision(owners: set<Owner>) {
    forall o, p :: o in owners && p in owners && Key(o) == Key(p) ==> o == p
  }

  lemma InsertHolds(objs: Objects, owners: set<Owner>, o: Owner)
    requires HoldsKeysOf(objs, owners)
    ensures HoldsKeysOf(objs[Key(o) := o], owners + {o})
  {
  }

  lemma LiveControlPlane(kcps: seq<Listed>)
    requires |kcps| <= 1
    ensures LiveOwners(kcps, []) == if kcps != [] && !kcps[0].deleted then {Owner(true, kcps[0].name)} else {}
  {
    if kcps != [] { assert kcps[0] in kcps; }
  }

  lemma LiveOwnersAppend(kcps: seq<Listed>, mds: seq<Listed>, md: Listed)
    ensures LiveOwners(kcps, mds + [md])
            == LiveOwners(kcps, mds) + if md.deleted then {} else {Owner(false, md.name)}
  {
  }

  method FetchMachineOwnerObjects(labelled: bool, kcps: Option<seq<Listed>>, mds: Option<seq<Listed>>)
    returns (r: Result<Objects>)
    ensures r.Ok? <==> labelled && kcps.Some? && |kcps.value| <= 1 && mds.Some?
    ensures r.Ok? ==>
              var owners := LiveOwners(kcps.value, mds.value);
              HoldsKeysOf(r.value, owners)
  {
    if !labelled {
      return Err("missing CAPI cluster label");
    }
    if kcps.None? {
      return Err("failed to list control plane objects");
    }
    if |kcps.value| > 1 {
      return Err("multiple control plane objects found");
    }
    var objects: Objects := map[];
    ghost var seen: set<Owner> := {};
    if kcps.value != [] && !kcps.value[0].deleted {
      var kcp := Owner(true, kcps.value[0].name);
      InsertHolds(objects, seen, kcp);
      objects := objects[Key(kcp) := kcp];
      seen := seen + {kcp};
    }
    LiveControlPlane(kcps.value);
    if mds.None? {
      return Err("failed to list machine deployment objects");
    }
    var list := mds.value;
    for i := 0 to |list|
      invariant seen == LiveOwners(kcps.value, list[..i])
      invariant HoldsKeysOf(objects, seen)
    {
      LiveOwnersAppend(kcps.value, list[..i], list[i]);
      assert list[..i + 1] == list[..i] + [list[i]];
      if !list[i].deleted {
        var md := Owner(false, list[i].name);
        InsertHolds(objects, seen, md);
        objects := objects[Key(md) := md];
        seen := seen + {md};
      }
    }
    assert list[..|list|] == list;
    return Ok(objects);
  }

  // Every live owner is in the map exactly when no two keys collide.
  lemma MapHoldsAllOwnersExactly(objs: Objects, owners: set<Owner>)
    requires HoldsKeysOf(objs, owners)
    ensures objs.Values == owners <==> NoCollision(owners)
  {
  }

  // ----------------------------------------------------------------- service

  // An empty id means that the owner needs no module.
  datatype CreateAnswer = Made(uuid: string) | CreateFailed(incompatible: bool)

  // What an existence check answers: the truth, or, with an error or without,
  // anything.
  datatype ExistsAnswer = Truth | Says(found: bool)

  // How the calls of one reconcile go: what each check answers, which removals fail,
  // and what each create answers.
  datatype Plan = Plan(check: string -> ExistsAnswer, removeFails: string -> bool, create: Owner -> CreateAnswer)

  predicate SaysExists(plan: Plan, uuid: string, modules: set<string>) {
    match plan.check(uuid)
    case Truth => uuid in modules
    case Says(found) => found
  }

  predicate NewModule(plan: Plan, o: Owner) {
    plan.create(o).Made? && plan.create(o).uuid != ""
  }

  // Checks tell the truth, removals succeed, and new modules get new ids.
  ghost predicate Faithful(plan: Plan, modules: set<string>, objs: Objects) {
    && (forall u :: plan.check(u) == Truth && !plan.removeFails(u))
    && (forall k :: k in objs && NewModule(plan, objs[k]) ==> plan.create(objs[k]).uuid !in modules)
    && (forall k, l :: k in objs && l in objs && k != l && NewModule(plan, objs[k]) && NewModule(plan, objs[l])
          ==> plan.create(objs[k]).uuid != plan.create(objs[l]).uuid)
  }

  // specs: the list being built; objs: owners without a module yet; modules: what
  // the backend holds; failed: owners whose create failed.
  datatype Pass = Pass(specs: seq<Module>, objs: Objects, modules: set<string>, failed: seq<Owner>)

  function KeyOf(m: Module): string {
    Key(OwnerOf(m))
  }

  function KeepOne(mod: Module, p: Pass, plan: Plan): Pass {
    var curr := KeyOf(mod);
    if curr !in p.objs then
      if plan.removeFails(mod.uuid) then p else p.(modules := p.modules - {mod.uuid})
    else if SaysExists(plan, mod.uuid, p.modules) then
      var obj := p.objs[curr];
      p.(specs := p.specs + [Module(obj.controlPlane, obj.name, mod.uuid)], objs := p.objs - {curr})
    else p
  }

  // The first loop: keep, drop or remove the recorded entries in turn.
  function KeepPass(mods: seq<Module>, objs: Objects, modules: set<string>, plan: Plan): Pass {
    if mods == [] then Pass([], objs, modules, [])
    else KeepOne(mods[|mods| - 1], KeepPass(mods[..|mods| - 1], objs, modules, plan), plan)
  }

  function Uuids(mods: seq<Module>): set<string> {
    set m | m in mods :: m.uuid
  }

  // The entries made, and the owners whose create failed, when the remaining
  // owners are visited in this order.
  function Added(order: seq<string>, objs: Objects, plan: Plan): seq<Module>
    requires forall k :: k in order ==> k in objs
  {
    if order == [] then []
    else
      var o := objs[order[|order| - 1]];
      Added(order[..|order| - 1], objs, plan)
      + if NewModule(plan, o) then [Module(o.controlPlane, o.name, plan.create(o).uuid)] else []
  }

  function Failures(order: seq<string>, objs: Objects, plan: Plan): seq<Owner>
    requires forall k :: k in order ==> k in objs
  {
    if order == [] then []
    else
      var o := objs[order[|order| - 1]];
      Failures(order[..|order| - 1], objs, plan) + if plan.create(o).CreateFailed? then [o] else []
  }

  // The second loop, over the remaining owners in the order the map yields them.
  function CreatePass(order: seq<string>, p: Pass, plan: Plan): Pass
    requires forall k :: k in order ==> k in p.objs
  {
    var added := Added(order, p.objs, plan);
    Pass(p.specs + added, p.objs, p.modules + Uuids(added), Failures(order, p.objs, plan))
  }

  ghost predicate IsOrder(order: seq<string>, objs: Objects) {
    && (forall k :: k in order <==> k in objs)
    && (forall i, j :: 0 <= i < j < |order| ==> order[i] != order[j])
  }

  datatype Condition = ModulesFailed | ModulesAvailable | ConditionDeleted

  class ClusterModuleReconciler {
    // ICSCluster.Spec.ClusterModules, its condition, and the backend's modules.
    var recorded: seq<Module>
    var condition: Condition
    var modules: set<string>

    constructor (recorded: seq<Module>, modules: set<string>)
      ensures this.recorded == recorded && this.modules == modules
    {
      this.recorded, this.modules, condition := recorded, modules, ConditionDeleted;
    }

    // The part of Reconcile after the owners are fetched.
    method Reconcile(owners: Objects, plan: Plan) returns (err: bool, ghost order: seq<string>)
      modifies this
      ensures var kept := KeepPass(old(recorded), owners, old(modules), plan);
              && IsOrder(order, kept.objs)
              && var p := CreatePass(order, kept, plan);
              && recorded == p.specs && modules == p.modules
              && (err <==> exists o :: o in p.failed && plan.create(o) != CreateFailed(true))
              && condition == (if p.failed != [] then ModulesFailed
                               else if p.specs != [] then ModulesAvailable else ConditionDeleted)
    {
      var specs, objectMap := VerifyRecorded(owners, plan);
      var modErrs;
      specs, modErrs, order := CreateMissing(specs, objectMap, plan);
      recorded := specs;
      err := exists o :: o in modErrs && plan.create(o) != CreateFailed(true);
      condition := if modErrs != [] then ModulesFailed
                   else if specs != [] then ModulesAvailable else ConditionDeleted;
    }

    method VerifyRecorded(owners: Objects, plan: Plan) returns (specs: seq<Module>, objectMap: Objects)
      modifies this`modules
      ensures Pass(specs, objectMap, modules, []) == KeepPass(recorded, owners, old(modules), plan)
    {
      objectMap, specs := owners, [];
      for i := 0 to |recorded|
        invariant Pass(specs, objectMap, modules, []) == KeepPass(recorded[..i], owners, old(modules), plan)
      {
        var mod := recorded[i];
        assert recorded[..i + 1][..i] == recorded[..i];
        var curr := mod.target;
        if mod.controlPlane {
          curr := "kcp" + curr;
        }
        if curr !in objectMap {
          if !plan.removeFails(mod.uuid) {
            modules := modules - {mod.uuid};
          }
        } else {
          var obj := objectMap[curr];
          var found := SaysExists(plan, mod.uuid, modules);
          if found {
            specs := specs + [Module(obj.controlPlane, obj.name, mod.uuid)];
            objectMap := objectMap - {curr};
          }
        }
      }
      assert recorded[..|recorded|] == recorded;
    }

    method CreateMissing(specs: seq<Module>, objectMap: Objects, plan: Plan)
      returns (all: seq<Module>, modErrs: seq<Owner>, ghost order: seq<string>)
      modifies this`modules
      ensures IsOrder(order, objectMap)
      ensures Pass(all, objectMap, modules, modErrs)
              == CreatePass(order, Pass(specs, objectMap, old(modules), []), plan)
    {
      all, modErrs, order := specs, [], [];
      var todo := objectMap.Keys;
      while todo != {}
        invariant todo <= objectMap.Keys
        invariant forall k :: k in order <==> k in objectMap.Keys - todo
        invariant forall i, j :: 0 <= i < j < |order| ==> order[i] != order[j]
        invariant all == specs + Added(order, objectMap, plan)
        invariant modules == old(modules) + Uuids(Added(order, objectMap, plan))
        invariant modErrs == Failures(order, objectMap, plan)
        decreases todo
      {
        var k :| k in todo;
        assert k !in order;
        todo := todo - {k};
        var obj := objectMap[k];
        assert (order + [k])[..|order|] == order;
        order := order + [k];
        var answer := plan.create(obj);
        if answer.CreateFailed? {
          modErrs := modErrs + [obj];
          continue;
        }
        if answer.uuid == "" {
          continue;
        }
        modules := modules + {answer.uuid};
        all := all + [Module(obj.controlPlane, obj.name, answer.uuid)];
      }
    }
  }

  // ------------------------------------------------- what the first loop keeps

  // The entries built so far belong to owners that are no longer waiting, one
  // each; every other owner is still waiting.
  ghost predicate Settled(objs: Objects, specs: seq<Module>, waiting: Objects) {
    && (forall k :: k in waiting ==> k in objs && waiting[k] == objs[k])
    && (forall i :: 0 <= i < |specs| ==>
          var k := KeyOf(specs[i]);
          k in objs && objs[k] == OwnerOf(specs[i]) && k !in waiting)
    && (forall i, j :: 0 <= i < j < |specs| ==> KeyOf(specs[i]) != KeyOf(specs[j]))
    && (forall k :: k in objs && k !in waiting ==> HasEntry(specs, k))
  }

  predicate HasEntry(specs: seq<Module>, k: string) {
    exists i :: 0 <= i < |specs| && KeyOf(specs[i]) == k
  }

  lemma HasEntryConcat(a: seq<Module>, b: seq<Module>, k: string)
    ensures HasEntry(a + b, k) <==> HasEntry(a, k) || HasEntry(b, k)
  {
    var all := a + b;
    forall i | 0 <= i < |a| ensures all[i] == a[i] {
    }
    forall i | 0 <= i < |b| ensures all[|a| + i] == b[i] {
    }
    if HasEntry(all, k) {
      var i :| 0 <= i < |all| && KeyOf(all[i]) == k;
      assert i >= |a| ==> all[i] == b[i - |a|];
    }
  }

  lemma KeepOneSettles(mod: Module, before: Pass, objs: Objects, plan: Plan)
    requires Keyed(objs) && Settled(objs, before.specs, before.objs)
    ensures var p := KeepOne(mod, before, plan);
            Settled(objs, p.specs, p.objs) && p.failed == before.failed
  {
    var p := KeepOne(mod, before, plan);
    if p.specs != before.specs {
      var last := p.specs[|p.specs| - 1];
      assert p.specs == before.specs + [last] && p.objs == before.objs - {KeyOf(last)};
      forall k | k in objs && k !in p.objs ensures HasEntry(p.specs, k) {
        HasEntryConcat(before.specs, [last], k);
        assert KeyOf([last][0]) == k || HasEntry(before.specs, k);
      }
    } else {
      assert p.objs == before.objs;
    }
  }

  lemma {:induction false} KeepPassSettles(mods: seq<Module>, objs: Objects, modules: set<string>, plan: Plan)
    requires Keyed(objs)
    ensures var p := KeepPass(mods, objs, modules, plan);
            Settled(objs, p.specs, p.objs) && p.failed == []
  {
    if mods != [] {
      var rest := mods[..|mods| - 1];
      KeepPassSettles(rest, objs, modules, plan);
      KeepOneSettles(mods[|mods| - 1], KeepPass(rest, objs, modules, plan), objs, plan);
    }
  }

  predicate DistinctUuids(mods: seq<Module>) {
    forall i, j :: 0 <= i < j < |mods| ==> mods[i].uuid != mods[j].uuid
  }

  lemma UuidsAppend(a: seq<Module>, b: seq<Module>)
    ensures Uuids(a + b) == Uuids(a) + Uuids(b)
  {
  }

  lemma KeepOneModules(mod: Module, rest: set<string>, before: Pass, modules: set<string>, plan: Plan)
    requires before.modules * rest == Uuids(before.specs)
    requires before.modules - rest == modules - rest
    requires mod.uuid !in rest && plan.check(mod.uuid) == Truth && !plan.removeFails(mod.uuid)
    ensures var p := KeepOne(mod, before, plan);
            && p.modules * (rest + {mod.uuid}) == Uuids(p.specs)
            && p.modules - (rest + {mod.uuid}) == modules - (rest + {mod.uuid})
  {
    var p := KeepOne(mod, before, plan);
    if p.specs != before.specs {
      var last := p.specs[|p.specs| - 1];
      UuidsAppend(before.specs, [last]);
      assert Uuids([last]) == {mod.uuid};
    }
    forall u | u !in rest + {mod.uuid} ensures u in p.modules <==> u in modules {
      assert u in before.modules - rest <==> u in modules - rest;
    }
  }

  // With a faithful service and distinct recorded ids, the first loop leaves in
  // the backend, of the modules recorded, exactly those it keeps.
  lemma {:induction false} KeepPassModules(mods: seq<Module>, objs: Objects, modules: set<string>, plan: Plan)
    requires DistinctUuids(mods) && Faithful(plan, modules, objs)
    ensures var p := KeepPass(mods, objs, modules, plan);
            && p.modules * Uuids(mods) == Uuids(p.specs)
            && p.modules - Uuids(mods) == modules - Uuids(mods)
  {
    if mods != [] {
      var mod, rest := mods[|mods| - 1], mods[..|mods| - 1];
      KeepPassModules(rest, objs, modules, plan);
      UuidsAppend(rest, [mod]);
      assert mods == rest + [mod] && Uuids([mod]) == {mod.uuid};
      assert forall m :: m in rest ==> m.uuid != mod.uuid;
      KeepOneModules(mod, Uuids(rest), KeepPass(rest, objs, modules, plan), modules, plan);
    }
  }

  // ----------------------------------------------- what the second loop adds

  ghost predicate NoRepeats(order: seq<string>) {
    forall i, j :: 0 <= i < j < |order| ==> order[i] != order[j]
  }

  // Each entry made is for an owner visited, with the id its create answered.
  lemma {:induction false} AddedAreMade(order: seq<string>, objs: Objects, plan: Plan, i: nat)
    requires (forall k :: k in order ==> k in objs) && Keyed(objs) && i < |Added(order, objs, plan)|
    ensures var e := Added(order, objs, plan)[i];
            && KeyOf(e) in order && objs[KeyOf(e)] == OwnerOf(e)
            && NewModule(plan, OwnerOf(e)) && plan.create(OwnerOf(e)).uuid == e.uuid
  {
    var rest := order[..|order| - 1];
    if i < |Added(rest, objs, plan)| {
      AddedAreMade(rest, objs, plan, i);
      assert Added(order, objs, plan)[i] == Added(rest, objs, plan)[i];
    }
  }

  lemma {:induction false} AddedKeysDiffer(order: seq<string>, objs: Objects, plan: Plan, i: nat, j: nat)
    requires (forall k :: k in order ==> k in objs) && Keyed(objs) && NoRepeats(order)
    requires i < j < |Added(order, objs, plan)|
    ensures KeyOf(Added(order, objs, plan)[i]) != KeyOf(Added(order, objs, plan)[j])
  {
    var rest := order[..|order| - 1];
    if j < |Added(rest, objs, plan)| {
      AddedKeysDiffer(rest, objs, plan, i, j);
    } else {
      AddedAreMade(rest, objs, plan, i);
    }
  }

  // Exactly the owners visited whose create made a module have an entry.
  lemma {:induction false} AddedEntries(order: seq<string>, objs: Objects, plan: Plan, k: string)
    requires (forall l :: l in order ==> l in objs) && Keyed(objs)
    ensures HasEntry(Added(order, objs, plan), k) <==> k in order && NewModule(plan, objs[k])
  {
    if order != [] {
      var last, rest := order[|order| - 1], order[..|order| - 1];
      AddedEntries(rest, objs, plan, k);
      var o := objs[last];
      assert k in order <==> k in rest || k == last;
      if NewModule(plan, o) {
        var entry := Module(o.controlPlane, o.name, plan.create(o).uuid);
        assert Added(order, objs, plan) == Added(rest, objs, plan) + [entry];
        assert OwnerOf(entry) == o && KeyOf([entry][0]) == last;
        HasEntryConcat(Added(rest, objs, plan), [entry], k);
      } else {
        assert Added(order, objs, plan) == Added(rest, objs, plan);
      }
    }
  }

  lemma {:induction false} FailuresExactly(order: seq<string>, objs: Objects, plan: Plan, o: Owner)
    requires (forall k :: k in order ==> k in objs) && Keyed(objs)
    ensures o in Failures(order, objs, plan)
            <==> Key(o) in order && objs[Key(o)] == o && plan.create(o).CreateFailed?
  {
    if order != [] {
      assert order == order[..|order| - 1] + [order[|order| - 1]];
      FailuresExactly(order[..|order| - 1], objs, plan, o);
    }
  }

  // ------------------------------------------------------------ main results

  // What Reconcile leaves: see ClusterModuleReconciler.Reconcile.
  function Outcome(mods: seq<Module>, objs: Objects, modules: set<string>, plan: Plan, order: seq<string>): Pass
    requires IsOrder(order, KeepPass(mods, objs, modules, plan).objs)
  {
    CreatePass(order, KeepPass(mods, objs, modules, plan), plan)
  }

  // Whatever the service does: at most one entry for each live owner, and none
  // for anything else.
  lemma OneEntryPerOwner(mods: seq<Module>, objs: Objects, modules: set<string>, plan: Plan, order: seq<string>)
    requires Keyed(objs) && IsOrder(order, KeepPass(mods, objs, modules, plan).objs)
    ensures var specs := Outcome(mods, objs, modules, plan, order).specs;
            && (forall i :: 0 <= i < |specs| ==> KeyOf(specs[i]) in objs && objs[KeyOf(specs[i])] == OwnerOf(specs[i]))
            && (forall i, j :: 0 <= i < j < |specs| ==> OwnerOf(specs[i]) != OwnerOf(specs[j]))
            && (forall i, j :: 0 <= i < j < |specs| ==> KeyOf(specs[i]) != KeyOf(specs[j]))
  {
    var kept := KeepPass(mods, objs, modules, plan);
    KeepPassSettles(mods, objs, modules, plan);
    var added := Added(order, kept.objs, plan);
    forall i | 0 <= i < |added| ensures KeyOf(added[i]) in kept.objs && kept.objs[KeyOf(added[i])] == OwnerOf(added[i]) {
      AddedAreMade(order, kept.objs, plan, i);
    }
    forall i, j | 0 <= i < j < |added| ensures KeyOf(added[i]) != KeyOf(added[j]) {
      AddedKeysDiffer(order, kept.objs, plan, i, j);
    }
  }

  // Every live owner is exactly one of: kept, with its recorded entry; created,
  // with a new entry; skipped; failed and reported. The last two get no entry.
  lemma OwnersArePartitioned(mods: seq<Module>, objs: Objects, modules: set<string>, plan: Plan,
                             order: seq<string>, k: string)
    requires Keyed(objs) && IsOrder(order, KeepPass(mods, objs, modules, plan).objs) && k in objs
    ensures var kept, out := KeepPass(mods, objs, modules, plan), Outcome(mods, objs, modules, plan, order);
            && (HasEntry(kept.specs, k) <==> k !in kept.objs)
            && (HasEntry(out.specs, k) <==> k !in kept.objs || NewModule(plan, objs[k]))
            && (objs[k] in out.failed <==> k in kept.objs && plan.create(objs[k]).CreateFailed?)
  {
    var kept := KeepPass(mods, objs, modules, plan);
    KeepPassSettles(mods, objs, modules, plan);
    assert HasEntry(kept.specs, k) <==> k !in kept.objs;
    FailuresExactly(order, kept.objs, plan, objs[k]);
    AddedEntries(order, kept.objs, plan, k);
    HasEntryConcat(kept.specs, Added(order, kept.objs, plan), k);
  }

  // If the backend held only recorded modules, it afterwards holds exactly those
  // of the new list: duplicates are removed and nothing leaks.
  lemma BackendEqualsList(mods: seq<Module>, objs: Objects, modules: set<string>, plan: Plan, order: seq<string>)
    requires Keyed(objs) && IsOrder(order, KeepPass(mods, objs, modules, plan).objs)
    requires Faithful(plan, modules, objs) && DistinctUuids(mods) && modules <= Uuids(mods)
    ensures var out := Outcome(mods, objs, modules, plan, order);
            out.modules == Uuids(out.specs)
  {
    var kept := KeepPass(mods, objs, modules, plan);
    KeepPassModules(mods, objs, modules, plan);
    assert kept.modules == kept.modules * Uuids(mods) + (kept.modules - Uuids(mods));
    UuidsAppend(kept.specs, Added(order, kept.objs, plan));
  }

  // Every module of a list is in the backend, and its entries belong to different
  // live owners.
  ghost predicate Consistent(mods: seq<Module>, objs: Objects, modules: set<string>) {
    && Uuids(mods) <= modules
    && (forall i :: 0 <= i < |mods| ==> KeyOf(mods[i]) in objs && objs[KeyOf(mods[i])] == OwnerOf(mods[i]))
    && (forall i, j :: 0 <= i < j < |mods| ==> KeyOf(mods[i]) != KeyOf(mods[j]))
  }

  lemma ConsistentPrefix(rest: seq<Module>, mod: Module, objs: Objects, modules: set<string>)
    requires Consistent(rest + [mod], objs, modules)
    ensures Consistent(rest, objs, modules) && !HasEntry(rest, KeyOf(mod)) && mod.uuid in modules
    ensures KeyOf(mod) in objs && objs[KeyOf(mod)] == OwnerOf(mod)
  {
    var mods := rest + [mod];
    assert forall i :: 0 <= i < |rest| ==> mods[i] == rest[i];
    assert mods[|rest|] == mod && mod in mods;
    UuidsAppend(rest, [mod]);
  }

  // Such a list passes the first loop unchanged.
  lemma {:induction false} ConsistentIsKept(mods: seq<Module>, objs: Objects, modules: set<string>, plan: Plan)
    requires Consistent(mods, objs, modules) && forall u :: plan.check(u) == Truth
    ensures var p := KeepPass(mods, objs, modules, plan);
            && p.specs == mods && p.modules == modules
            && forall k :: k in p.objs <==> k in objs && !HasEntry(mods, k)
    ensures forall k :: k in KeepPass(mods, objs, modules, plan).objs ==> KeepPass(mods, objs, modules, plan).objs[k] == objs[k]
  {
    if mods != [] {
      var mod, rest := mods[|mods| - 1], mods[..|mods| - 1];
      assert mods == rest + [mod];
      ConsistentPrefix(rest, mod, objs, modules);
      ConsistentIsKept(rest, objs, modules, plan);
      forall k ensures HasEntry(mods, k) <==> HasEntry(rest, k) || k == KeyOf(mod) {
        HasEntryConcat(rest, [mod], k);
        assert HasEntry([mod], k) <==> KeyOf([mod][0]) == k;
      }
    }
  }

  lemma NothingAdded(order: seq<string>, objs: Objects, plan: Plan)
    requires forall k :: k in order ==> k in objs
    requires forall k :: k in order ==> !NewModule(plan, objs[k])
    ensures Added(order, objs, plan) == []
  {
  }

  lemma NothingFails(order: seq<string>, objs: Objects, plan: Plan)
    requires forall k :: k in order ==> k in objs
    requires forall k :: k in order ==> plan.create(objs[k]).Made?
    ensures Failures(order, objs, plan) == []
  {
  }

  // A run with a faithful service leaves such a list; the owners without an entry
  // in it were skipped or failed.
  lemma RunLeavesConsistent(mods: seq<Module>, objs: Objects, modules: set<string>, plan: Plan, order: seq<string>)
    requires Keyed(objs) && IsOrder(order, KeepPass(mods, objs, modules, plan).objs)
    requires Faithful(plan, modules, objs) && DistinctUuids(mods)
    ensures var out := Outcome(mods, objs, modules, plan, order);
            Consistent(out.specs, objs, out.modules)
  {
    var kept := KeepPass(mods, objs, modules, plan);
    KeepPassModules(mods, objs, modules, plan);
    UuidsAppend(kept.specs, Added(order, kept.objs, plan));
    OneEntryPerOwner(mods, objs, modules, plan, order);
  }

  lemma OwnerWithoutEntry(mods: seq<Module>, objs: Objects, modules: set<string>, plan: Plan,
                          order: seq<string>, k: string)
    requires Keyed(objs) && IsOrder(order, KeepPass(mods, objs, modules, plan).objs) && k in objs
    requires Outcome(mods, objs, modules, plan, order).failed == []
    requires !HasEntry(Outcome(mods, objs, modules, plan, order).specs, k)
    ensures plan.create(objs[k]) == Made("")
  {
    OwnersArePartitioned(mods, objs, modules, plan, order, k);
  }

  // After a run without errors, a second run with the same owners and backend,
  // in any order and skipping the same owners, creates and removes no module and
  // leaves the recorded list as it is.
  lemma SecondRunChangesNothing(mods: seq<Module>, objs: Objects, modules: set<string>,
                                plan: Plan, order: seq<string>, plan': Plan, order': seq<string>)
    requires Keyed(objs) && IsOrder(order, KeepPass(mods, objs, modules, plan).objs)
    requires Faithful(plan, modules, objs) && DistinctUuids(mods)
    requires Outcome(mods, objs, modules, plan, order).failed == []
    requires forall u :: plan'.check(u) == Truth
    requires forall o :: plan.create(o) == Made("") ==> plan'.create(o) == Made("")
    requires var out := Outcome(mods, objs, modules, plan, order);
             IsOrder(order', KeepPass(out.specs, objs, out.modules, plan').objs)
    ensures var out := Outcome(mods, objs, modules, plan, order);
            var again := Outcome(out.specs, objs, out.modules, plan', order');
            again.specs == out.specs && again.modules == out.modules && again.failed == []
  {
    var out := Outcome(mods, objs, modules, plan, order);
    RunLeavesConsistent(mods, objs, modules, plan, order);
    ConsistentIsKept(out.specs, objs, out.modules, plan');
    var p := KeepPass(out.specs, objs, out.modules, plan');
    forall k | k in order' ensures plan'.create(p.objs[k]) == Made("") {
      OwnerWithoutEntry(mods, objs, modules, plan, order, k);
    }
    NothingAdded(order', p.objs, plan');
    NothingFails(order', p.objs, plan');
  }
}
