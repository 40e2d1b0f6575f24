# Verified model of the ICS cluster-api provider

The provider is a set of Kubernetes controllers that create virtual machines in
an iCenter backend. This project models the parts of it whose correctness does not
show in any single function, and proves what they promise: the static address
allocator and its mutex protocol, the life of a backend VM and of the tasks that
change it, the chain of finalizers that deletion follows, the reconciliation of
cluster modules, and several smaller algorithms. `dafny verify dfyconfig.toml`
checks all of it.

## How the model is built

Code that updates objects step by step is a class whose methods state their whole
new state through a function on values; the lemmas are about these functions, over
every input, every run or every interleaving. What comes from outside is a
parameter of the step: what iCenter answers to a call (`VmLifecycle.Answers`), what
the cluster-module service does (`ClusterModules.Plan`), what a list call returns,
which writes fail. Iteration over a Go map is an arbitrary choice of the next key,
`rand.Intn` an arbitrary choice of an index. Each reconcile of one object is one
step, because the work queue never runs one object twice at a time; steps of
different objects, and of the backend, interleave freely.

| file | what it holds |
|---|---|
| Bytes, Ipv4 | big-endian byte strings, masks, canonical IPv4 text |
| CidrScan, AddressPool | the scan of a block; the search of a device's pool |
| Allocator | one pass over a VM's NICs, in the class form of the source |
| AllocationProtocol | any number of passes and releases, interleaved |
| AddressSafety | the protocol together with the life of each VM and the three releases |
| VmLifecycle, VmDestroy, VmProgress, VmController | one ICSVM, its backend VM and its tasks: safety, what each call answers, how a VM comes up and goes |
| DeletionChain, DeletionEnds, ChainSteps | ICSCluster, ICSMachines, ICSVMs and backends together: safety, that deletion ends, what single reconciles do |
| ClusterModules, Compare | cluster-module reconciliation and list comparison |
| HostPlacement, ControlPlaneEndpoint, ApiServerPoller | placement, endpoint, poller map |
| ProviderId, MachineReadiness | provider IDs and the readiness of an ICSMachine |
| ZeroPruning, MapPruner, Label | pruning nested maps in the heap; label truncation |

## Where the code does not meet the property one would expect

Each of these is kept as the code has it, with the exact condition or a concrete
failing run proved.

- The scan of a fully recorded /0 block wraps and never stops; every other scan
  halts (`CidrScan.ScanHalts`, `CidrScan.FullSpaceNeverStops`).
- `&ip != nil` is always true, so the search of a pool ends at the first entry not
  passed over. An exhausted block then yields the text `<nil>` although another
  entry is free (`AddressPool.GrantsAddressInEveryOrder`).
- A failed List counts as "nothing allocated", a List that succeeds may be behind,
  since it reads the manager's cache, and a failed record write is only logged. Each
  gives one address to two VMs, exactly under the conditions of
  `AllocationProtocol.SecondPassSharesExactly`, `FailedWriteSharesExactly` and
  `FailedListSharesExactly`; `AddressPool.FailedListExactly` tells which pools a
  failed List harms.
- A power-on failure releases the VM's address records while the VM is still there,
  and so does a deletion with iCenter unreachable and something left. Two VMs then
  come to have one address with every call successful, exactly as
  `AddressSafety.ReleaseSharesExactly` says; `AddressSafety.HarmIsReachedFromStart`
  gives runs to both. After the power-on failure the VM is only asked to be deleted,
  or, if it is on after all, to be powered off; whether it is gone or powered on again
  in the end, its records released, is decided by `VmDestroy.PoweredOnAgainExactly`.
- When the edit of a VM's NICs fails, the addresses that it was given stay recorded,
  and the next pass takes others (`Allocator.FailedEditLeaksAddresses`).
- A remembered BIOS UUID whose VM is gone makes every reconcile create another VM
  (`VmLifecycle.DuplicateExactly`, `VmDestroy.OutsideRemovalDuplicates`); so does a
  lookup that fails (`VmLifecycle.LookupsCreateExactly`).
- An ICSVM deleted while iCenter is unreachable loses its finalizer with its VM
  still there (`DeletionChain.OrphansExactly`).
- The key `"kcp" + name` collides with a MachineDeployment of that name
  (`ClusterModules.MapHoldsAllOwnersExactly`).
- Compare tells a list from a rearrangement of it exactly when two different entries
  share a name, as those of a control plane and a MachineDeployment may
  (`Compare.OrderNeverMattersExactly`).
- With no network at all, or a host named twice by one network, counting is not
  membership (`HostPlacement.CountingIsExact`, `EligibleSelectedExactly`,
  `RepeatsMislead`, and as input `TwoRepeatsMislead`).
- The provider ID patterns ignore case, so decoding and encoding restores an ID only
  when its prefix is in lower case (`ProviderId.EncodeDecode`).
- An empty address list that is present in the ICSVM's data would empty a ready
  machine's; the serialised form never has one (`MachineReadiness.BreaksExactly`).

## Model

| member | source | states |
|---|---|---|
| Bytes.AddOffsetToIP | pkg/util/icsvm.go:184-191 | the in-place carry loop leaves the byte string of the next value modulo 256^n, for any length |
| Bytes.MaskedValue | pkg/util/icsvm.go:172 | masking the first p bits moves a value down to the start of its aligned block of 2^(8n-p) numbers |
| Bytes.ContainsIsRange | pkg/util/icsvm.go:172 | the byte-wise mask test holds exactly for the numbers of one interval |
| Ipv4.ParseTextRoundTrip | pkg/util/icsvm.go:99-104 | text parses to an address exactly when it is that address's canonical text |
| Ipv4.TextInjective | pkg/util/icsvm.go:174 | different addresses have different texts, so filtering by text is filtering by address |
| Ipv4.ParseCIDRExactly | pkg/util/icsvm.go:167 | address a and prefix length p are read exactly from the canonical text of a, a slash, and the digits of p, at most 32, with or without zeros before them |
| CidrScan.ScanBlock | pkg/util/icsvm.go:172-180 | the scan returns the numerically least address of the block that is not in the filter, and nothing exactly when the filter covers the block; it halts |
| CidrScan.GetIPAddressByCIDR | pkg/util/icsvm.go:166-181 | succeeds exactly on the text of some address and prefix length, and then returns the result of scanning that very block |
| CidrScan.CandidateInBlock | pkg/util/icsvm.go:172-180 | wrapping past 255.255.255.255 leaves the block, so no candidate is looked at twice |
| CidrScan.ScanBound | pkg/util/icsvm.go:172-180 | pigeonhole: an address is found within the first (filter size + 1) candidates, and none only if the filter has at least as many entries as the block |
| CidrScan.ScanResultUnique | pkg/util/icsvm.go:172-180 | block and filter determine the result |
| CidrScan.ScanMonotone | pkg/util/icsvm.go:172-180 | with more addresses recorded the result never moves down |
| CidrScan.CandidatesCount | pkg/util/icsvm.go:172-191 | k applications of the carry step to the masked address count up by k until they wrap |
| CidrScan.FullSpaceNeverStops | pkg/util/icsvm.go:172-180 | where the scan's precondition fails, every candidate, however often the carry step is applied, is filtered and inside the block |
| AddressPool.ConvertIPAddrsToPreAllocations | pkg/util/icsvm.go:92-109 | the pool holds exactly the entries that parse, each with its kind |
| AddressPool.KindExactly | pkg/util/icsvm.go:97-107 | an entry is static exactly when it is the canonical text of an address, and a block exactly when it is one followed by a slash and a prefix length |
| AddressPool.MaskExactly | pkg/util/icsvm.go:143-155 | a static entry gets the device's netmask if that has at least eight characters, and otherwise, as a block's grant does, the hexadecimal mask of its address class |
| AddressPool.GetIPFromNetworkConfig | pkg/util/icsvm.go:112-163 | fails exactly on a nil list; otherwise grants what some entry not passed over yields, or empty text when all are |
| AddressPool.PickedAddressIsFreeAndListed | pkg/util/icsvm.go:112-163 | in every iteration order a granted address was not recorded, and is or lies in one of the device's own entries |
| AddressPool.GrantsAddressInEveryOrder | pkg/util/icsvm.go:134-160 | every iteration order grants an address exactly when no listed block is exhausted and some entry is not an already recorded static address |
| AddressPool.EveryEntryCanBePicked | pkg/util/icsvm.go:134-160 | each entry not passed over is granted in some order |
| AddressPool.GrantableExactly | pkg/util/icsvm.go:112-163 | some order grants a given address exactly when it is a static entry that is not recorded, or the first address of a block that is not |
| AddressPool.FailedListExactly | pkg/util/icsvm.go:124-127 | after a failed List a recorded address can be granted exactly when a listed static entry, or the first address of a listed block, is recorded |
| Allocator.AddressBook.UpdateNicIPConfig | pkg/services/goclient/icenter/icenter.go:511-533 | one pass changes just the one NIC and just the one record, as granted; a nil list changes nothing |
| Allocator.AddressBook.AssignStaticAddresses | pkg/services/goclient/net/net.go:79-116 | however its calls go, one pass gives every non-DHCP NIC from index 1 up a static configuration, and a pass over what the backend then has is due exactly when the edit was sent and failed; when its lists and writes succeed, new addresses are unrecorded before, pairwise different, recorded after and of the own pool, and when besides each pool has room before the pass, every such NIC gets one |
| Allocator.EveryNicGetsAddress | pkg/services/goclient/net/net.go:95-106 | pools that have, before the pass, room for their NIC and for every rival that draws on them keep room until its end |
| Allocator.FailedEditLeaksAddresses | pkg/services/goclient/net/net.go:107-113 | when the edit fails, the next pass gives other addresses, and those of the first one stay recorded |
| Allocator.FreshGrantAdds | pkg/util/icsvm.go:36-79 | recording a granted address adds a record and changes no other record of an address |
| AllocationProtocol.StepKeepsInv | pkg/services/goclient/icenter/icenter.go:511-533 | every step of every caller keeps mutual exclusion, unique records and the freshness of what each caller listed and chose, when each List shows at least every record |
| AllocationProtocol.RunKeepsInv | pkg/services/goclient/icenter/icenter.go:511-533 | so every interleaving whose lists miss nothing keeps them |
| AllocationProtocol.NoSharedRecord | pkg/services/goclient/icenter/icenter.go:511-533 | in every interleaving whose lists miss nothing, whichever writes fail, no two VMs hold live records of one address |
| AllocationProtocol.GrantedAddressIsUnrecorded | pkg/services/goclient/icenter/icenter.go:514-525 | when lists miss nothing, an address that is about to be recorded has no record in any namespace, and no other caller is between lock and unlock |
| AllocationProtocol.PassEffect | pkg/services/goclient/icenter/icenter.go:511-533 | an uninterrupted sequence of the protocol's steps has the effect that the sequential method states |
| AllocationProtocol.SecondPassSharesExactly | pkg/services/goclient/icenter/icenter.go:511-533 | after any pass, a pass of another VM can be given the same address exactly when its List, whatever it shows, leaves that address to be granted; never after a successful write and a list that misses nothing |
| AllocationProtocol.FailedWriteSharesExactly | pkg/services/goclient/icenter/icenter.go:525-528 | after a failed write: exactly when the address was grantable to the second device before the first pass |
| AllocationProtocol.FailedListSharesExactly | pkg/util/icsvm.go:124-127 | after a failed list: exactly when the address is one of the second device's static entries or starts one of its blocks |
| AllocationProtocol.FailuresShareAddress | pkg/util/icsvm.go:122-130 | runs from the start in which two VMs get one address: with one failed write, with one failed list, and with one list that succeeds but is stale |
| AddressSafety.StepKeepsInv | controllers/icsvm_controller.go:257-308 | every step of allocation, lifecycle, release and re-creation keeps: until its VM has ended, a configured address has a live record of that VM |
| AddressSafety.SafeRunsNeverShare | controllers/icsvm_controller.go:257-308 | in every interleaving whose lists miss nothing, whose writes succeed and in which each release follows the end of its VM, no two VMs that exist or are being made are configured with one address |
| AddressSafety.WhichReleasesFollowTheEnd | controllers/icsvm_controller.go:260-350 | the release after "notfound" always follows the end of the VM, the one on a power-on failure never does, the one with iCenter unreachable does exactly when nothing is left |
| AddressSafety.RefusedCreateLetsGo | pkg/services/goclient/service.go:83 | a refused create lets go of the addresses granted for it, while their records stay |
| AddressSafety.ReleaseSharesExactly | controllers/icsvm_controller.go:289-308 | releasing one record can lead to two VMs with one address, by safe steps alone, exactly when the VM still exists or is being made and is configured with that address |
| AddressSafety.HarmIsReachedFromStart | controllers/icsvm_controller.go:281-350 | for every address, safe steps lead from the start to such a release, on a power-on failure and on a deletion with iCenter unreachable |
| VmController.VmContext.ReconcileInFlight | pkg/services/goclient/util.go:126-156 | the in-place gate keeps the lifecycle invariant, and lets a call proceed only with nothing in flight |
| VmController.VmContext.Find | pkg/services/goclient/util.go:57-108 | by BIOS UUID alone if there is one, else by id, and failing that by name; under true lookups it finds a VM exactly when the backend holds one |
| VmController.VmContext.RecordUuids | pkg/services/goclient/net/net.go:70-77 | an id that is set is never blanked, and each becomes the VM's own whenever the VM reports one |
| VmController.VmContext.ReconcilePower | pkg/services/goclient/service.go:203-250 | whatever it issues is a power-on of the VM found, when that is stopped; ready exactly when that is on, and a power-on failure exactly for lack of memory or a power-on that ended in an error |
| VmController.VmContext.Reconcile | pkg/services/goclient/service.go:46-107 | ReconcileVM, in place, keeps the lifecycle invariant, issues a create only with no VM and nothing in flight, blanks neither id, and answers ready, and a power-on failure, exactly as the backend and the reads call for |
| VmController.VmContext.Destroy | pkg/services/goclient/service.go:110-181 | DestroyVM, in place, keeps it for a deleted object, deletes only a VM that is not on and powers off only one that is, and says "notfound" exactly with nothing left or coming, and never on a failed lookup by BIOS UUID |
| VmController.VmContext.ReconcileNormally | controllers/icsvm_controller.go:341-372 | the controller's part keeps it too, and says ready exactly with a VM that is on and has a BIOS UUID, which is then recorded |
| VmLifecycle.FindIsExact | pkg/services/goclient/util.go:57-108 | under true lookups the search finds a VM exactly when the backend holds one |
| VmLifecycle.EnvKeepsInv | pkg/services/goclient/util.go:126-156 | the backend's progress on tasks keeps the lifecycle invariant |
| VmLifecycle.ReconcileVMKeepsInv | pkg/services/goclient/service.go:46-107 | ReconcileVM keeps it, and leaves nothing in flight when it reports a power-on failure or a ready VM |
| VmLifecycle.DestroyVMKeepsInv | pkg/services/goclient/service.go:110-181 | DestroyVM keeps it for a deleted object, and for a live one when the VM is forgotten in the same step |
| VmLifecycle.ReconcileNormalKeepsInv | controllers/icsvm_controller.go:341-372 | so the destroy-and-recreate path keeps it |
| VmLifecycle.RunKeepsInv | controllers/icsvm_controller.go:257-372 | every state of every run of reconciles, deletions and backend steps satisfies the invariant |
| VmLifecycle.AtMostOneVMEver | pkg/services/goclient/service.go:46-107 | in every run an ICSVM has at most one VM |
| VmLifecycle.OneTaskInFlight | pkg/services/goclient/util.go:110-156 | in every run at most one task is in flight, and it is the one in TaskRef |
| VmLifecycle.CreateOnlyWhenNone | pkg/services/goclient/service.go:66-83 | in every run a create is issued only with no VM there and none being made |
| VmLifecycle.DuplicateExactly | pkg/services/goclient/service.go:66-83 | with true lookups, one call creates a VM beside an existing one exactly when it remembers a BIOS UUID that no VM has |
| VmLifecycle.LookupsCreateExactly | pkg/services/goclient/util.go:57-135 | with lookups that fail or lie, one call creates a VM, whatever the backend holds, exactly when the request is accepted, no task is seen in flight, and no lookup names a VM |
| VmProgress.CallInFlight | pkg/services/goclient/service.go:53-57 | while a task is in flight neither call changes anything |
| VmProgress.CallWithoutVM | pkg/services/goclient/service.go:66-83 | without a VM, exactly one create is issued and tracked, or none when it is refused |
| VmProgress.CallWithVM | pkg/services/goclient/service.go:87-106 | a VM that is on is ready, nothing is done to it, and both ids are recorded; one neither on nor off is an error |
| VmProgress.CallWithVMOff | pkg/services/goclient/service.go:208-243 | a VM that is off is powered on when the host can be read and has memory, and what each other case answers |
| VmProgress.ReadyExactly | pkg/services/goclient/service.go:102-106 | ReconcileVM answers ready exactly when nothing is in flight, the VM is there and on, and its reads succeed; and with which UUID |
| VmProgress.PowerOnFailsExactly | pkg/services/goclient/service.go:219-237 | it answers a power-on failure exactly when the VM is off, all reads succeed, and memory is short or an accepted power-on ended in an error |
| VmProgress.PendingExactly | pkg/services/goclient/service.go:46-107 | and pending exactly while a task is in flight, a create is accepted, or a power-on is, or the host cannot be read |
| VmProgress.NormalReadyExactly | controllers/icsvm_controller.go:355-372 | the controller says ready exactly when besides the VM has a BIOS UUID, which is then recorded with its id |
| VmProgress.NotFoundExactly | pkg/services/goclient/service.go:126-135 | whatever the lookups answer, DestroyVM says "notfound" exactly when no task is seen in flight and they name no VM, the one by BIOS UUID without an error |
| VmProgress.DestroyIdle | pkg/services/goclient/service.go:149-181 | with nothing in flight the VM is asked to be powered off if it is on, and else to be deleted, and that is tracked |
| VmProgress.ReadyIsReached | pkg/services/goclient/service.go:41-107 | from any state of a live object, by reconciles for which all goes well, the fourth answers ready at the latest, the third for a new object, and then one VM is there, on, with its ids recorded |
| VmProgress.UpRoundIsPossible | pkg/services/goclient/service.go:46-107 | and such a reconcile can always follow |
| VmDestroy.RoundDecreases | pkg/services/goclient/service.go:110-181 | each call, with the end of the task it issued, does one unit of the remaining work, and answers "notfound" exactly when none is left |
| VmDestroy.DestroyReachesNotFound | pkg/services/goclient/service.go:110-181 | with requests accepted and tasks ending well in between, from any recognised power state and any known task in flight, the fourth call at the latest answers "notfound", as does every later one |
| VmDestroy.NotFoundMeansGone | pkg/services/goclient/service.go:126-135 | "notfound" means no VM is left and none is coming |
| VmDestroy.DeleteOnlyWhenNotOn | pkg/services/goclient/service.go:151-181 | delete goes only to a VM observed not powered on, power-off only to one that is |
| VmDestroy.PowerOnFailureLeavesVM | controllers/icsvm_controller.go:342-350 | the power-on-failure path ends with the VM still there, whatever became of the request to destroy it |
| VmDestroy.PoweredOnAgainExactly | controllers/icsvm_controller.go:342-350 | after either kind of power-on failure, once what was requested has ended in whatever way, the VM is gone exactly when it was off and a delete had its effect, and the next reconcile for which all goes well powers it on exactly when it was off and is not gone, or was on and a power-off had its effect |
| VmDestroy.ReconcileWaitsForRequest | pkg/services/goclient/service.go:53-57 | until what was requested has ended, every reconcile waits |
| VmDestroy.OutsideRemovalDuplicates | pkg/services/goclient/util.go:59-68 | removing a VM from outside lets two reconciles create two VMs, though every lookup is true |
| DeletionChain.RemoveSolelyOwned | controllers/icscluster_controller.go:227-253 | the loop fails exactly when a call for a solely owned machine does, stops at the first failed Update, and otherwise removes exactly the solely owned machines, with a positive count exactly when a machine is left |
| DeletionChain.AfterCallsIsRemoval | controllers/icscluster_controller.go:229-247 | however its calls go, the loop removes the solely owned machines it passed whose calls end well and takes the finalizer of those whose Delete failed |
| DeletionChain.ClusterKeepsLinked | controllers/icscluster_controller.go:218-259 | an ICSCluster reconcile, however far its calls get, never removes or strips an ICSMachine that has an ICSVM, nor goes before it |
| DeletionChain.StepKeepsLinked | pkg/services/vimmachine.go:67-91 | every step keeps: an ICSVM has an ICSMachine with finalizer and a second owner, and an ICSCluster with finalizer |
| DeletionChain.StepKeepsLives | controllers/icsvm_controller.go:257-287 | every step with iCenter reachable keeps: without an ICSVM holding its finalizer, the backend holds nothing |
| DeletionChain.RunKeepsInv | controllers/icsmachine_controller.go:225-297 | so does every run of the three controllers, users and backend |
| DeletionChain.VmIsNeverOrphaned | controllers/icsvm_controller.go:257-287 | in every such run, while a VM exists or is being made, its ICSVM, ICSMachine and ICSCluster exist with their finalizers |
| DeletionChain.ClusterGoneMeansEmpty | controllers/icscluster_controller.go:218-259 | when the ICSCluster is gone no VM of its machines is left or coming, and there is never more than one per ICSVM |
| DeletionChain.OrphansExactly | controllers/icsvm_controller.go:260-284 | a step orphans a VM exactly when it drops the finalizer of a deleted ICSVM while iCenter is unreachable and something is left |
| ChainSteps.MachineReconcileExactly | pkg/services/vimmachine.go:112-126 | a live ICSMachine gets its finalizer, and its ICSVM is created exactly when there is none, nothing stops the reconcile early and the infrastructure is ready |
| ChainSteps.DeletedMachineExactly | controllers/icsmachine_controller.go:225-241 | one being deleted deletes its ICSVM, and goes exactly when there is none |
| ChainSteps.VmReconcileExactly | controllers/icsvm_controller.go:310-353 | a live ICSVM gets its finalizer, and its VM is reconciled exactly when nothing stops it early and iCenter is reachable |
| ChainSteps.DeletedVmExactly | controllers/icsvm_controller.go:257-287 | one being deleted goes exactly when iCenter is unreachable, or the backend holds no VM and nothing in flight |
| ChainSteps.ClusterReconcileExactly | controllers/icscluster_controller.go:218-265 | a live ICSCluster gets its finalizer; one being deleted goes exactly when every call succeeds and no machine has another owner |
| ChainSteps.VmIsReached | controllers/icsvm_controller.go:310-353 | for every machine, a run from the start with iCenter reachable leads to a VM |
| ChainSteps.LeavingIsReached | controllers/icscluster_controller.go:218-259 | and the deletions of the user lead from there to a world that the termination results are about |
| DeletionEnds.TurnDecreases | controllers/icsmachine_controller.go:225-241 | a turn of a machine that is being deleted (ICSMachine, ICSVM, end of the task) does at least one unit of its work and touches no other machine |
| DeletionEnds.ClusterTurnKeeps | controllers/icscluster_controller.go:218-259 | the ICSCluster's turn removes exactly the machines that no CAPI Machine took, and is the last one when there is no other |
| DeletionEnds.DeletionEndsAfterFiveTurns | controllers/icscluster_controller.go:218-259 | once an ICSCluster and its machines are being deleted, five turns of each machine in any order and one of the ICSCluster leave no ICSCluster, ICSMachine, ICSVM, backend VM or task in flight |
| DeletionEnds.MachineTurnIsPossible | controllers/icsvm_controller.go:257-287 | and such a turn can always be taken |
| ClusterModules.FetchMachineOwnerObjects | controllers/clustermodule_reconciler.go:213-252 | fails exactly without label, on a failed list or with several control planes; otherwise holds an owner under each live owner's key and nothing else |
| ClusterModules.MapHoldsAllOwnersExactly | controllers/clustermodule_reconciler.go:254-259 | no owner is lost exactly when no two keys collide |
| ClusterModules.ClusterModuleReconciler.Reconcile | controllers/clustermodule_reconciler.go:70-152 | the in-place reconcile computes the two passes the lemmas are about, and sets its condition and error from the failed owners |
| ClusterModules.KeepPassSettles | controllers/clustermodule_reconciler.go:76-108 | after the first loop every owner either has exactly one kept entry or still waits |
| ClusterModules.KeepPassModules | controllers/clustermodule_reconciler.go:76-108 | with a service that works and distinct recorded ids, the backend then holds of the recorded modules exactly the kept ones, and all others as before |
| ClusterModules.OneEntryPerOwner | controllers/clustermodule_reconciler.go:75-132 | whatever the service answers, at most one entry per live owner and none for anything else |
| ClusterModules.OwnersArePartitioned | controllers/clustermodule_reconciler.go:75-132 | each live owner is exactly one of kept, created, skipped or failed |
| ClusterModules.BackendEqualsList | controllers/clustermodule_reconciler.go:75-132 | with a service that works, distinct recorded ids and a backend that held only recorded modules, the backend afterwards holds exactly those of the new list: nothing leaks |
| ClusterModules.RunLeavesConsistent | controllers/clustermodule_reconciler.go:75-132 | with a service that works and distinct recorded ids, one run leaves a list whose modules all exist and whose entries belong to different live owners |
| ClusterModules.SecondRunChangesNothing | controllers/clustermodule_reconciler.go:75-132 | after such a run without failures a second run, in any order, creates and removes nothing and keeps the list |
| Compare.SliceStable | pkg/clustermodule/util.go:33-38 | sorting in place leaves a sorted list with the same subsequence for each name |
| Compare.LessExactly | pkg/clustermodule/util.go:33-38 | names are ordered by their first difference, a proper prefix first |
| Compare.SortedIsDetermined | pkg/clustermodule/util.go:33-38 | two sorted lists with the same subsequence for each name are equal |
| Compare.Compare | pkg/clustermodule/util.go:29-50 | true exactly when the two lists restricted to any name are the same; both arguments end as stable sorted rearrangements |
| Compare.SameRestrictionsSameEntries | pkg/clustermodule/util.go:29-50 | true implies equal multisets |
| Compare.DistinctNamesCompareAsSets | pkg/clustermodule/util.go:29-50 | with distinct names, true exactly for equal multisets |
| Compare.OrderNeverMattersExactly | pkg/clustermodule/util.go:29-50 | a list equals all its rearrangements exactly when entries that share a name are the same entry |
| Compare.SharedNamesTellOrder | pkg/clustermodule/util.go:29-50 | exchanging two different entries of one name, anywhere in a list, makes it compare as different |
| HostPlacement.GetAvailableHosts | pkg/services/goclient/icenter/icenter.go:535-615 | returns a host that the counters select, and fails exactly on a service error or when they select none; given a network and no repeats, returns an eligible host and fails exactly when there is none |
| HostPlacement.FullCountIsMembership | pkg/services/goclient/icenter/icenter.go:572-596 | without repeats a host's count reaches the number of networks exactly when every network lists it |
| HostPlacement.CountingIsExact | pkg/services/goclient/icenter/icenter.go:545-614 | so the counters select exactly the eligible hosts, given at least one network |
| HostPlacement.EligibleExactly | pkg/services/goclient/icenter/icenter.go:552-608 | eligible means: connected, in the requested cluster, on the datastore, listed for every network by the service for its kind of switch, and with more free memory than asked for |
| HostPlacement.BoundsOfPermutation | pkg/services/goclient/icenter/icenter.go:573-590 | the order in which the map yields the networks does not matter |
| HostPlacement.EligibleSelectedExactly | pkg/services/goclient/icenter/icenter.go:572-596 | an eligible host is selected exactly when no network names it twice |
| HostPlacement.RepeatsMislead | pkg/services/goclient/icenter/icenter.go:572-596 | a host that some network does not list is selected exactly when repeats bring its count to the number of networks, and then some network names it twice |
| HostPlacement.TwoRepeatsMislead | pkg/services/goclient/icenter/icenter.go:572-596 | the failing input: one of two networks names the host twice and the other not at all |
| ControlPlaneEndpoint.EndpointReconciler.ReconcileLoadBalancer | controllers/icscluster_controller.go:387-412 | the in-place update of the ICSCluster's endpoint and its load-balancer flag, as the run lemmas use it |
| ControlPlaneEndpoint.EndpointReconciler.ReconcileControlPlaneEndpoint | controllers/icscluster_controller.go:415-562 | the scan of the machines and the update of both endpoints, with every early return, as the run lemmas use it |
| ControlPlaneEndpoint.FirstAddressExactly | controllers/icscluster_controller.go:449-491 | the address taken is that of the first machine with bootstrap data and an address, and none is taken exactly when there is no such machine |
| ControlPlaneEndpoint.ChangesExactly | controllers/icscluster_controller.go:387-533 | exactly when one reconcile changes the Cluster's endpoint, told from the endpoints and flag before it, and to what |
| ControlPlaneEndpoint.BalancedExactly | controllers/icscluster_controller.go:396-437 | with a load balancer in use, a reconcile succeeds, sets the flag, and leaves the given endpoint in both objects |
| ControlPlaneEndpoint.UnbalancedExactly | controllers/icscluster_controller.go:439-562 | otherwise it clears the flag, sets the ICSCluster to the first machine's address or the placeholder, and answers exactly by how far its calls come |
| ControlPlaneEndpoint.GivenEndpointIsTaken | controllers/icscluster_controller.go:393-437 | an endpoint that the user gave the ICSCluster is kept by every reconcile, with the default port for none |
| ControlPlaneEndpoint.GivenEndpointStays | controllers/icscluster_controller.go:387-437 | over every run the ICSCluster keeps it, and the Cluster never has another |
| ControlPlaneEndpoint.SettledForever | controllers/icscluster_controller.go:387-437 | an endpoint with a host other than 127.0.0.1 never changes, whatever machines come and go |
| ControlPlaneEndpoint.SuccessAligns | controllers/icscluster_controller.go:387-533 | after a successful reconcile the ICSCluster has an endpoint, and it equals the Cluster's whenever that is set |
| ControlPlaneEndpoint.MovesForward | controllers/icscluster_controller.go:504-533 | in every run the Cluster's endpoint only moves from unset to the placeholder to one final endpoint |
| ControlPlaneEndpoint.OnlyPlaceholderOrMachine | controllers/icscluster_controller.go:387-533 | from an unset start, both endpoints are only ever unset, the placeholder, or a machine's address with the default port |
| ApiServerPoller.StepKeepsInv | controllers/icscluster_controller.go:571-606 | every step of every call and poller keeps mutual exclusion, one poller per cluster and the map's meaning |
| ApiServerPoller.OnePollerPerCluster | controllers/icscluster_controller.go:564-606 | in every interleaving a cluster has at most one poller that has not deregistered, and is in the map exactly when it has one |
| ApiServerPoller.CallLeavesPoller | controllers/icscluster_controller.go:571-584 | a whole call leaves the cluster with a poller, a new one exactly when it had none |
| ApiServerPoller.PollerDeregisters | controllers/icscluster_controller.go:602-604 | a poller past its waits leaves the map without its cluster and the cluster without a poller |
| ProviderId.DecodeEncode | pkg/util/machines.go:273-297 | decoding an encoded UUID gives it back, and gives nothing for text that is no UUID |
| ProviderId.EncodeDecode | pkg/util/machines.go:255-297 | encoding a decoded provider ID gives it back exactly when it is empty, or valid with a lower-case prefix |
| ProviderId.EncodeInjective | pkg/util/machines.go:288-297 | different UUIDs have different provider IDs |
| ProviderId.UUIDExactly | pkg/util/machines.go:257-268 | a UUID is five groups of 8, 4, 4, 4 and 12 hexadecimal digits of either case with dashes between them |
| ProviderId.DecodeExactly | pkg/util/machines.go:273-283 | a provider ID decodes to a UUID exactly when it is that after "ics://" in either case |
| MachineReadiness.MachineReconciler.ReconcileProviderID | pkg/services/vimmachine.go:234-274 | sets the provider ID exactly from a valid BIOS UUID, fails exactly on an invalid one, and never empties it |
| MachineReadiness.MachineReconciler.ReconcileNetwork | pkg/services/vimmachine.go:277-324 | takes addresses and networks over exactly when they are present, and succeeds exactly with an address |
| MachineReadiness.MachineReconciler.ReconcileNormal | pkg/services/vimmachine.go:112-173 | done exactly when the ICSVM is ready with a valid UUID and the machine then has an address; ready exactly when it was so or it is done; what each field becomes, and when it is an error |
| MachineReadiness.BreaksExactly | pkg/services/vimmachine.go:112-173 | exactly when one reconcile leaves a ready machine without an address |
| MachineReadiness.ReadyIsForever | api/v1beta1/icsvm_types.go:48-75 | over every sequence of ICSVM states a ready machine stays ready with an address and a provider ID that decodes to a valid UUID |
| MachineReadiness.ReadyExactly | pkg/services/vimmachine.go:112-173 | over every sequence of ICSVM states, a machine is ready exactly when it started so or met a state, ready with a valid UUID, that gave it an address or found one |
| MachineReadiness.ProviderIDIsLastReady | pkg/services/vimmachine.go:234-274 | the provider ID is always the one of the last state that was ready with a valid UUID |
| ZeroPruning.KeepsExactlyNonZeroLeaves | packaging/flavorgen/flavors/util/helpers.go:116-153 | pruning keeps exactly the paths to non-zero leaves, with their values |
| ZeroPruning.ZeroExactly | packaging/flavorgen/flavors/util/helpers.go:116-134 | a value is zero exactly when it is the zero value of its own kind |
| ZeroPruning.PrunedIsClean | packaging/flavorgen/flavors/util/helpers.go:116-153 | nothing zero and no empty map is left below the root |
| ZeroPruning.PruningIsIdempotent | packaging/flavorgen/flavors/util/helpers.go:136-153 | pruning twice is pruning once |
| ZeroPruning.CleanIsDeterminedByLeaves | packaging/flavorgen/flavors/util/helpers.go:136-153 | being clean and having these leaves determine the result |
| MapPruner.MapNode.DeleteZeroValues | packaging/flavorgen/flavors/util/helpers.go:136-153 | the recursive deletion in the heap leaves the pruned document and touches only the document's own maps |
| Label.TruncateLabelLength | pkg/util/label.go:57-73 | an over-long input is cut to its longest prefix of at most 63 bytes that ends just before a dot, else to its first 63 bytes |

## Left out

Stated less strongly than one might read them:

- AllocationProtocol.NoSharedRecord: assumes that a List shows every record, which a cached client does not ensure; what happens otherwise is stated beside it.
- AddressSafety.SafeRunsNeverShare: assumes the same, successful writes, and no release before the VM's end. An address counts as configured from the record write on, whether or not a later edit of the NICs reaches the backend.
- Allocator.AddressBook.AssignStaticAddresses: states for failing or stale calls only which NICs are edited and how, since the addresses may then be shared.
- Ipv4.ParseTextRoundTrip: IPv6 text, which net.ParseIP accepts too, is treated as not parsing.
- CidrScan.GetIPAddressByCIDR: an IPv6 block is treated as not parsing.
- AddressPool.ConvertIPAddrsToPreAllocations: IPv6 entries are dropped, where the code keeps them.
- AddressPool.GetIPFromNetworkConfig: IPv6 entries are never granted, where the code may grant them.
- VmController.VmContext.ReconcileNormally: the release of address records on a power-on failure is not part of its state; it is a step of AddressSafety.
- ApiServerPoller.OnePollerPerCluster: while a call holds the mutex, a cluster may be in the map just before its poller starts.

Assumptions of the main results:

- Lookups are true, and nothing outside removes or adds a backend VM. What one call does when a lookup fails or lies, and what follows a removal from outside, is stated beside the main results; runs with such lookups are not.
- Patches of an object persist, and the read and the patch in createOrPatchICSVM are one step, since the patch writes back an earlier BIOS UUID.
- The reconcile that edits a VM's NICs waits for the edit; its task is not tracked in TaskRef and is not one of the tasks of VmLifecycle.
- One reconcile of an ICSVM does not overlap another of the same ICSVM; each record it releases is a step of AddressSafety.
- No two ICSVMs of one iCenter share a name: the lookup by name searches iCenter by the ICSVM's name alone, so ICSVMs of one name in two namespaces would find each other's VM.
- In AddressSafety an ICSVM is created anew only after its VM has ended, and garbage collection deletes no record of a VM that has not.
- VmProgress.ReadyIsReached assumes the like: true lookups, accepted requests, tasks that end well, VMs that are on or off and have a BIOS UUID.
- DeletionEnds assumes what it says of a turn (iCenter reachable, requests accepted, tasks ending well), recognised power states, and that nothing else happens meanwhile.
- An ICSCluster is not replaced by a new one once Cluster.Status.InfrastructureReady is set, and owner references and finalizers are not edited by hand.
- An ICSMachine, its CAPI Machine and its ICSVM are known by one name; finalizers of other controllers and paused objects are not modelled.

Not modelled:

- IPv6 pools and static IPv6 entries: IPv6 text is treated as not parsing; Bytes holds for 16-byte addresses as well.
- syncIPPool: writes records of addresses that VMs report, outside the mutex.
- Texts are sequences of characters where Go has bytes; the two differ only beyond ASCII.
- ICSVM status addresses and readiness, and the early patch of a control-plane VM's addresses.
- UpdateNetworkInfo, cloud-init, host and guest timing, waitForIPAddresses and the event channels.
- Liveness of the API server poller: isControlPlaneInitialized reads the captured Cluster object, so only safety is claimed.
- IsClusterCompatible and the concrete cluster-module provider: modules are modelled against the Service interface.
- The 64-bit product of the memory size in getAvailableHosts, which is a parameter.
- Struct, array and unsigned values in isZeroValue, which JSON decoding never makes; maps inside lists are values, as the code leaves them alone.
- The kubeconfig secret's text, sessions, identity secrets, webhooks, conversions, object builders and logging.
