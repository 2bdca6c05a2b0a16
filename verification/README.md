# Harvester infrastructure provider: a verified model

Cluster API Provider Harvester creates and deletes the virtual machines of a Kubernetes
cluster on a Harvester installation. This project models the parts of it where mistakes
cost an address, a machine or somebody else's resource, and proves what those parts keep:

- **IP pools.** An allocator over the status of an `IPPool` object, the subnet arithmetic
  under it, and its concurrent use by any number of reconcilers that fetch a pool, change
  their copy and write it back under a version check (`Ipv4`, `Ranges`, `PoolStore`,
  `PoolRuns`, `PoolProtocol`, `PoolOwnership`, `VmIp`, `PoolPasses`).
- **The machine reconcile loop.** One pass as a step on the machine object and on what
  exists in Harvester, whole runs with lost patches, user deletion and asynchronous VM
  removal, and convergence (`MachineReconcile`, `MachineLifecycle`, `MachineConvergence`, `MachineRuns`).
- **Rewritings that must keep a meaning.** Failure domains and node affinity
  (`FailureDomains`, `Affinity`), the edit of one Secret in a YAML stream (`SecretDocs`),
  the merge of cloud-init documents (`CloudInit`).
- **Ownership by name or by mark.** The cluster's own VM pool (`VmPool`), etcd members and
  volume claims found by prefix (`Prefixes`), generated names (`Names`).

`dafny verify dfyconfig.toml` checks everything.

## How to read it

Procedures that change state are methods of a class or loops, each proved against a
function or predicate of the old state; the laws are lemmas about those functions. A run
is a sequence of events, each possible in the state it happens in; `After` is the state
the run ends in. Answers of API servers are parameters of a step, so a lemma over all
steps covers every failure. Go's map iteration is an arbitrary choice from the keys left.

Some promises do not hold of the code as written. Each has a lemma that shows the failure
and a lemma with the exact condition under which the promise holds:

| promise | fails | holds exactly when |
|---|---|---|
| the cached count tells when a pool is full | `PoolRuns.StrayReleaseHidesExhaustion` | `PoolRuns.ExhaustionDetected` |
| a machine owns the address it records, so no two share one | `PoolOwnership.SecondReleaseSharesAddress` | `PoolOwnership.AgreementExactly`, one release: `PoolOwnership.ReleaseSafeExactly` |
| a VM is created with its cloud-init secret | `MachineReconcile.VMWithoutSecret`, `MachineConvergence.SecretMissingForever` | `MachineReconcile.NormalCreatesGuarded` |
| a ready machine has an address | `MachineReconcile.ReadyAtCreation`, `MachineConvergence.ReadyFlips` | `MachineReconcile.ReadyUnaddressedExactly` |
| at most one pool lists a machine | `PoolPasses.TwoPoolsListed` | `PoolOwnership.OnePoolExactly` |
| a converged machine reports itself provisioned | `MachineConvergence.ReadyNotProvisioned` | `MachineConvergence.ProvisionedExactly` |
| pinning to a failure domain only narrows | `Affinity.EmptyTermWidens` | `Affinity.RewriteAdmits` |
| editing a Secret leaves other documents alone | `SecretDocs.EditLosesDocument` | `SecretDocs.IntendedExactly` |
| the guarded delete removes our own pool | `VmPool.RetakenPoolDeleted` | `VmPool.GuardedDeleteSafety` |
| a cluster's own pool goes with it | `VmPool.LostPatchLeavesPool` | `VmPool.OwnPoolSurvivesExactly` |
| a pool that was only found survives the cluster | `VmPool.FoundPoolDeletedExactly` | `VmPool.FoundPoolDeletedExactly` |

Where comments and code disagree the code is modelled: `Release` of an address nobody
holds is documented to do nothing but counts and records it (util/ippool.go:97-117); the
machine's `initialization.provisioned` is not kept equal to `ready`
(internal/controller/harvestermachine_controller.go:257-556).

## Model

| member | source | states |
|---|---|---|
| Ipv4.AndMask | util/ippool.go:227-229 | bitwise AND with any mask of leading ones is rounding down to a power of two, at any width |
| Ipv4.OrInverted | util/ippool.go:256-263 | bitwise OR with the inverted mask is the last number of that block |
| Ipv4.NetworkValue | util/ippool.go:227-229 | masking four bytes is rounding the 32-bit integer down to its block, for every prefix length |
| Ipv4.BroadcastValue | util/ippool.go:256-263 | the byte-wise broadcast address is network + 2^(32-p) - 1 |
| Ipv4.LastValue | util/ippool.go:265-277 | the last usable address is one below broadcast; the byte decrement wraps exactly for a /32 ending in zero |
| Ipv4.BroadcastIP | util/ippool.go:256-263 | the loop over the bytes fills an array whose integer value is the end of the block |
| Ipv4.LastIP | util/ippool.go:265-277 | the loop and the decrement give the end of the block less one for every prefix below 32 |
| Ipv4.ContainsValue | util/ippool.go:241-243 | byte-wise subnet containment is membership of the integer interval from network to broadcast, both ways |
| Ranges.ParseIP | util/ippool.go:231-254 | on bytes and masks, the field is accepted or refused as plain integer comparison with the subnet's ends says, with the same error first |
| Ranges.Defaults | util/ippool.go:165-187 | the defaults from byte arithmetic are the first and last interior integers, or the single address of a /32 |
| Ranges.MakeRange | util/ippool.go:158-225 | the whole procedure on bytes agrees with the integer specification, errors included; the range has the gateway, start and end it was given, the two ends in order, and the documented defaults for blank fields |
| Ranges.FieldsAreUsed | util/ippool.go:189-224 | for every specification that parses, which gateway, start and end the range has, over the given bytes alone |
| Ranges.GatewayNotOffered | util/ippool.go:182-186 | a given gateway is never among the addresses offered |
| Ranges.ErrorsExactly | util/ippool.go:231-254 | exactly which error is reported: of the subnet, else of the first field refused, for its first reason |
| Ranges.RangeBounds | util/ippool.go:158-225 | up to /30: success exactly when each given field is an interior address; then network < start <= end < broadcast and the gateway is strictly between |
| Ranges.PointToPoint | util/ippool.go:158-225 | /31 and /32 succeed exactly with three blank fields, the range spanning both addresses with the second as gateway, or the single address without one |
| Ranges.RangeWellFormed | util/ippool.go:204-217 | every range made from any specification is ordered and inside its subnet |
| Ranges.CountIsSize | util/ippool.go:279-288 | the count is the cardinality of the set of addresses the range offers, its own gateway excluded |
| PoolStore.Store.Reserve | util/ippool.go:67-88 | refuses exactly a held address and then changes nothing; otherwise the new status, count and last address |
| PoolStore.Store.Release | util/ippool.go:97-117 | the whole new status, including that an address nobody holds is still counted and recorded |
| PoolStore.ReleaseWrites | util/ippool.go:107-114 | the history then names the owner the address had, or nobody, and no other address is touched |
| PoolStore.Store.ReleaseByID | util/ippool.go:119-141 | in any iteration order: exactly the id's addresses leave, all are remembered, the count grows by their number |
| PoolStore.ReleaseByIdWrites | util/ippool.go:127-138 | each address of the id is free and remembered for it, no other address is touched, and the count grows by their number |
| PoolStore.Store.GetByID | util/ippool.go:143-156 | in any iteration order: each address of the id once, and no other |
| PoolStore.ReleaseTurn | util/ippool.go:127-138 | one turn of the map walk, at any point of it, takes the partial result to the next |
| PoolStore.Get | util/ippool.go:363-387 | the library allocator: a success is an allowed free address and is reserved; a failure means no address at all is allowed, and nothing changed |
| PoolStore.ParseRanges | util/ippool.go:347-357 | succeeds exactly when every range parses; an error names the first that does not |
| PoolRuns.ParsedWellFormed | util/ippool.go:347-357 | every range a pool is parsed into is ordered and inside its subnet |
| PoolStore.AllocateVMIPFromPool | util/ippool.go:344-390 | for every pool: a success is one of the past addresses of the id if it has any, else a fresh one, and only that is reserved; an error changes nothing and means that some past address cannot be reused, or that there is none and nothing is free |
| PoolStore.MayFailExactly | util/ippool.go:367-387 | with at most one past address an allocation can fail exactly when it cannot succeed |
| PoolStore.AllocateIPFromPool | internal/controller/harvestercluster_controller.go:638-690 | for every pool: a success reserves all past addresses of the id, each of them reusable, or one fresh address if it has none; an error means that one of them cannot be reused, or that nothing is free |
| PoolStore.ReusePast | internal/controller/harvestercluster_controller.go:664-681 | in any iteration order the loop without a break reserves every past address, or stops at one that cannot be reused |
| PoolStore.LoopsAgreeExactly | internal/controller/harvestercluster_controller.go:664-681 | the loops with and without the break have the same successful outcomes exactly when the id has at most one past address or none can be reused |
| PoolStore.GetIPFromIPPool | internal/controller/harvestercluster_controller.go:596-636 | a zero count is refused before allocation, any other count is not, for every pool |
| PoolRuns.HistoryInvariant | util/ippool.go:97-141 | after any mix of allocations and releases, a non-empty id holds at most one address, is remembered for at most one, and the two are equal |
| PoolRuns.ReuseIsForced | util/ippool.go:367-379 | in every reachable status an id with a past address can be given that address and nothing else, so map order is invisible |
| PoolRuns.ReleasedOnceRemembered | util/ippool.go:367-379 | after any run and the release of its address an id can be answered that address, if it can still be served, and nothing else |
| PoolRuns.ReleasedTwiceForgotten | util/ippool.go:107-112 | after two releases in a row nobody is remembered for the address, so its last owner is treated as new |
| PoolRuns.LastIsLatest | util/ippool.go:83-85 | in every run the pool names the address it answered last, and releases do not change that |
| PoolRuns.LoopsAlwaysAgree | internal/controller/harvestercluster_controller.go:664-681 | in every reachable status the missing break makes no difference to any non-empty id |
| PoolRuns.TotalIsOffered | util/ippool.go:279-288 | over disjoint ranges the sum of the counts is the number of distinct addresses offered |
| PoolRuns.CachedCount | util/ippool.go:68-141 | in every reachable status the cached count is the number of free addresses plus the number of stray releases so far |
| PoolRuns.ExhaustionDetected | internal/controller/harvestercluster_controller.go:621-636 | the test for zero is right exactly when no stray release was made or an address is free; at zero nobody can be served; without strays a non-zero count serves any newcomer |
| PoolRuns.StrayReleaseHidesExhaustion | util/ippool.go:97-117 | for every pool of one address and every id, a run that ends with the pool full and counted as having a free address |
| PoolRuns.OutcomesAreOps | internal/controller/harvestercluster_controller.go:638-690 | every successful outcome of either allocation loop, one address or several, is one operation of the sequential allocator, and the other way round |
| PoolProtocol.CopiesStayCurrent | internal/controller/harvestermachine_controller.go:1403-1460 | in every interleaving a copy at the server's version is the server's status |
| PoolProtocol.Serializable | util/ippool.go:51-59 | although locking does nothing, every pool status is the result of a legal sequential run of the accepted writes, each once and in order |
| PoolProtocol.ConcurrentHistory | internal/controller/harvestermachine_controller.go:1413-1424 | so the history invariant holds of every pool under any concurrency |
| PoolProtocol.ConcurrentCount | internal/controller/harvestercluster_controller.go:621-689 | and the cached count is the number of free addresses plus the stray releases accepted |
| PoolProtocol.ConcurrentExhaustion | internal/controller/harvestercluster_controller.go:621-636 | and the test for zero is right exactly when none was accepted or an address is free |
| PoolProtocol.RefusedMeansProgress | internal/controller/harvestermachine_controller.go:1403-1460 | over the trace: a write is refused exactly when the server accepted another write to that pool after the fetch of the copy |
| PoolProtocol.UninterruptedPassAccepted | internal/controller/harvestermachine_controller.go:1403-1460 | whatever else happened, a pass between whose fetch and write no write to its pool was accepted has its whole effect on the status it fetched |
| PoolOwnership.OwnershipAgreement | internal/controller/harvestermachine_controller.go:1367-1538 | in every run with guarded releases, a machine that records an address and has not released it is its owner in the pool, so no two record the same one |
| PoolOwnership.InvHolds | internal/controller/harvestermachine_controller.go:1367-1538 | the inductive invariant in every run whose releases are harmless |
| PoolOwnership.GuardedHarmless | internal/controller/harvestermachine_controller.go:1504-1534 | releases that fire only while the fetched pool lists the machine are harmless in every run |
| PoolOwnership.ReleaseSafeExactly | internal/controller/harvestermachine_controller.go:1474-1538 | a release keeps the invariant, and agreement in every possible next record, if and only if the pool does not list another machine that records the address or is about to |
| PoolOwnership.AgreementExactly | internal/controller/harvestermachine_controller.go:1367-1538 | for every run of the code as written: records and pools agree all the way, possible next records included, if and only if no release was harmful |
| PoolOwnership.SecondReleaseSharesAddress | internal/controller/harvestermachine_controller.go:1566-1653 | for any three machines and any pool of one address, a run of the code as written in which two live machines record the same address |
| PoolOwnership.LegacyReleaseBreaks | internal/controller/harvestermachine_controller.go:1488-1500 | a record without its pool, released into the first configured pool, takes the address from another machine that owns it there |
| PoolOwnership.BasicHolds | internal/controller/harvestermachine_controller.go:1367-1538 | in every run of the code as written copies are current and a released address is not listed for its machine |
| PoolOwnership.AddressBackExactly | internal/controller/harvestermachine_controller.go:1504-1534 | an accepted release takes the address back in every run; without harmful releases the pool lists the machine for its record exactly until then, though failures are only logged and the object may be gone |
| PoolOwnership.RecordStays | internal/controller/harvestermachine_controller.go:1474-1538 | in every run a record is never changed or cleared while the machine lives |
| PoolOwnership.OnePoolExactly | internal/controller/harvestermachine_controller.go:1403-1460 | for every run: at most one pool ever lists the machine if and only if it never commits while another pool lists it |
| PoolPasses.TwoPoolsListed | internal/controller/harvestermachine_controller.go:1403-1460 | whenever two pools have an address for a machine, a run with one crash ends with both listing it and one recorded |
| VmIp.SplitRefParts | util/ippool.go:336-342 | the two parts rebuild the reference and the name has no slash |
| VmIp.RefsEqualExactly | util/ippool.go:319-334 | references agree exactly on equal names without two different namespaces, symmetrically |
| VmIp.PoolMatchesNetworks | util/ippool.go:298-317 | true for every unassigned pool; for an assigned one exactly if a network of the machine has its name and no other namespace |
| VmIp.MachineIdInjective | internal/controller/harvestermachine_controller.go:1393-1393 | the pool id determines namespace and name, and is never empty |
| VmIp.FindListed | internal/controller/harvestermachine_controller.go:1413-1424 | finds an address exactly when the pool lists the machine |
| VmIp.TryPool | internal/controller/harvestermachine_controller.go:1403-1460 | how one pass ends, when it may fail, and that only a recorded address changes anything |
| VmIp.SearchPools | internal/controller/harvestermachine_controller.go:1403-1472 | the pool used can serve the machine and each one before it may be passed over; the error says whether all were passed over, all were skipped for their network, or the one to use could not be written |
| VmIp.TidyFirstFit | internal/controller/harvestermachine_controller.go:1394-1472 | if no pool remembers two past addresses of the machine, exactly the pools that cannot serve it are passed over |
| VmIp.RefsTried | internal/controller/harvestermachine_controller.go:1354-1365 | the machine's own configuration decides alone where it has one, its list over its single reference, in list order |
| VmIp.AllocateVMIP | internal/controller/harvestermachine_controller.go:1367-1472 | first fit and all or nothing: a nil error always means a recorded address, of a pool the machine's own configuration names or without one the cluster's; an error leaves every pool and the record unchanged and is that of the last pool that failed |
| VmIp.ListedEndsSearch | internal/controller/harvestermachine_controller.go:1411-1427 | a pool that lists the machine and can be fetched ends the search, whatever its network |
| VmIp.OtherNetworkSkipped | internal/controller/harvestermachine_controller.go:1429-1436 | a pool assigned to another network serves no machine it does not list |
| VmIp.ReleaseVMIP | internal/controller/harvestermachine_controller.go:1474-1538 | the recorded pool gives the address back, else the first one named by the machine's own configuration or without one the cluster's; no other pool changes, and the machine's record is never cleared |
| PoolPasses.AllocatePassIsRun | internal/controller/harvestermachine_controller.go:1403-1460 | every successful call of allocateVMIP is a run of the ownership state machine with the same pools and record |
| PoolPasses.ReleasePassIsRun | internal/controller/harvestermachine_controller.go:1474-1538 | every releaseVMIP whose calls succeed is such a run, into the pool it chooses, also for a record that names none |
| PoolPasses.ReleasePassHarmless | internal/controller/harvestermachine_controller.go:1474-1538 | that run is harmless exactly when the pool, before it, does not list another machine that relies on the address |
| PoolPasses.TidyInRuns | internal/controller/harvestermachine_controller.go:1393-1424 | after any concurrent run from empty pools no pool remembers two past addresses of a machine |
| PoolPasses.FirstFitInRuns | internal/controller/harvestermachine_controller.go:1394-1472 | so under any concurrency allocateVMIP is first fit |
| MachineReconcile.NormalCreatesGuarded | internal/controller/harvestermachine_controller.go:278-296 | no branch creates a VM without finalizer or beside an existing VM; a created VM has its secret exactly when the secret was there or its Get was answered; the finalizer is never lost |
| MachineReconcile.VMWithoutSecret | internal/controller/harvestermachine_controller.go:950-970 | every machine due for its VM gets one without a secret when the Get of the secret fails otherwise than with NotFound |
| MachineReconcile.ReadyExactly | internal/controller/harvestermachine_controller.go:378-541 | for every machine, VM and answers, exactly when a pass that got to the VM leaves the machine ready |
| MachineReconcile.ReadyUnaddressedExactly | internal/controller/harvestermachine_controller.go:257-556 | for every machine and all answers, exactly when a whole pass leaves the machine ready without an address |
| MachineReconcile.ReadyAtCreation | internal/controller/harvestermachine_controller.go:507-543 | every machine without addresses that gets its VM is ready at once |
| MachineReconcile.SeeVMOutcome | internal/controller/harvestermachine_controller.go:392-471 | exactly when the pass goes on, what it then has set, and exactly when initialization.provisioned holds |
| MachineReconcile.SeeVMProviderID | internal/controller/harvestermachine_controller.go:443-456 | a provider id is kept; a new one is the node's own where the lookup answered, else made from the VM; a ready machine with addresses waits exactly for a node that answers an empty id |
| MachineReconcile.ProvisionConditions | internal/controller/harvestermachine_controller.go:378-541 | exactly what a pass that got to the VM reports of provisioning and creation |
| MachineReconcile.GatesReport | internal/controller/harvestermachine_controller.go:278-376 | exactly what a pass reports of infrastructure, failure domain and address, and what each early stop resets or leaves |
| MachineReconcile.Scope.ReconcileNormal | internal/controller/harvestermachine_controller.go:257-391 | creates a VM only behind the finalizer and where there was none, with its secret exactly when that was there or its Get was answered; the statements equal the step the run lemmas are about |
| MachineReconcile.Scope.ProvisionVM | internal/controller/harvestermachine_controller.go:473-556 | creates a VM exactly when none exists, none is on record and the calls succeed; exactly when it leaves the machine ready |
| MachineReconcile.Scope.Observe | internal/controller/harvestermachine_controller.go:392-471 | goes on exactly when readiness already reflects the addresses and a provider id can be had, and then the machine is ready with one: its own, the node's, or one made from the VM; exactly when provisioned holds |
| MachineReconcile.Scope.CreateVMFromHarvesterMachine | internal/controller/harvestermachine_controller.go:694-770 | succeeds exactly when the calls do and no VM exists; exactly when the secret exists afterwards, with or without a VM |
| MachineReconcile.Scope.ReconcileDelete | internal/controller/harvestermachine_controller.go:1566-1653 | never creates a VM; the secret goes first, and only then is the VM asked to go or, with no VM left, are the finalizers dropped |
| MachineLifecycle.InvHolds | internal/controller/harvestermachine_controller.go:136-149 | the invariant over object, pass in progress and Harvester in every run from any state between passes, the parts of a patch being lost one by one |
| MachineLifecycle.PatchedParts | internal/controller/harvestermachine_controller.go:136-149 | a patch writes what the pass changed of each part that arrives, nothing of a lost part, and never the deletion mark |
| MachineLifecycle.LifecycleSafety | internal/controller/harvestermachine_controller.go:227-231 | at every step of every run, objects with the legacy finalizer included: a VM implies an object with a finalizer; the last finalizer goes only after secret and VM; a pass that sees the deletion creates no VM |
| MachineLifecycle.MigrationKeepsFinalizer | internal/controller/harvestermachine_controller.go:277-286 | in every run an object under the legacy finalizer loses it only to the current one, or by a delete pass that left nothing |
| MachineLifecycle.DeletionCompletes | internal/controller/harvestermachine_controller.go:1566-1653 | in any run of an object under deletion, with any failed, abandoned or lost passes: after one answered pass the VM is gone or about to go, and an answered and patched pass that finds it gone removes object, VM and secret for good |
| MachineLifecycle.DeletingRun | internal/controller/harvestermachine_controller.go:1566-1653 | how far a deletion got is never taken back by any event |
| MachineLifecycle.DeletionUnderWay | internal/controller/harvestermachine_controller.go:227-231 | in every run, whenever deletion was requested, it is under way once the pass on an older copy has ended |
| MachineLifecycle.DeletionCompletesInRuns | internal/controller/harvestermachine_controller.go:1566-1653 | so deletion completes in the rest of every run |
| MachineConvergence.StepCloser | internal/controller/harvestermachine_controller.go:257-556 | every good pass lowers a distance, from any machine state |
| MachineConvergence.Convergence | internal/controller/harvestermachine_controller.go:257-556 | five good passes reach VM, ready, created and provider id from any state, and no further good pass changes anything |
| MachineConvergence.SettledForever | internal/controller/harvestermachine_controller.go:257-556 | a settled machine is a fixed point of any number of good passes |
| MachineConvergence.ProviderIDSource | internal/controller/harvestermachine_controller.go:443-456 | through any passes a provider id is never replaced, and a new one is what one of the passes was answered about the VM that stays |
| MachineConvergence.SettledProviderID | internal/controller/harvestermachine_controller.go:443-456 | the provider id a machine settles with is the one it had, else that answer |
| MachineRuns.PassesAreIterates | internal/controller/harvestermachine_controller.go:136-149 | passes that fetch, act and patch are iterates of the step on the stored object |
| MachineRuns.ConvergesInRuns | internal/controller/harvestermachine_controller.go:257-556 | after any history with lost patches, five good whole passes bring the stored object to its goal, and further ones change nothing |
| MachineConvergence.ProvisionedExactly | internal/controller/harvestermachine_controller.go:392-471 | for every starting state, whether the converged machine reports itself provisioned |
| MachineConvergence.ReadyNotProvisioned | internal/controller/harvestermachine_controller.go:378-390 | every settled machine that loses its VM and then sees one pass end at a gate or at a failing Get of the VM converges to ready without provisioned |
| MachineConvergence.ReadyFlips | internal/controller/harvestermachine_controller.go:417-464 | while a running VM with a provider id reports no address, readiness alternates for any number of passes |
| MachineConvergence.SecretMissingForever | internal/controller/harvestermachine_controller.go:950-970 | a machine whose VM was created without its secret converges, and no good pass ever writes the secret |
| FailureDomains.FailureDomainsFromNodes | internal/controller/failure_domains.go:46-82 | in any map order the list is strictly sorted with one domain per zone, or per host if some host has no zone; each serves control planes and names the label to schedule on |
| FailureDomains.PickTopologyKey | internal/controller/failure_domains.go:51-60 | the zone label exactly when every host carries one |
| FailureDomains.Collect | internal/controller/failure_domains.go:70-77 | in any map order: one domain per name, none twice |
| FailureDomains.SortByName | internal/controller/failure_domains.go:79-79 | a strictly sorted permutation |
| FailureDomains.PublishedUnique | internal/controller/failure_domains.go:46-82 | the hosts determine the published list |
| FailureDomains.DomainsPartitionHosts | internal/controller/failure_domains.go:41-82 | each host is in exactly one domain and no domain is empty |
| FailureDomains.SelectorPicksDomain | internal/controller/failure_domains.go:111-127 | the selector computed back from a published name picks exactly the hosts the domain came from |
| FailureDomains.SelectorFallback | internal/controller/failure_domains.go:111-127 | the first entry of the name decides the label; without one, or without a label on it, the host name does |
| FailureDomains.MachineDomainWins | internal/controller/failure_domains.go:99-109 | the owner Machine's domain wins whenever it names one |
| Affinity.RewriteAdmits | internal/controller/harvestermachine_controller.go:1284-1312 | for every selector, exactly which hosts the rewritten terms admit, empty terms included |
| Affinity.PinningPreservesMeaning | internal/controller/harvestermachine_controller.go:1284-1312 | without empty terms: admitted before and in the failure domain |
| Affinity.EmptyTermWidens | internal/controller/harvestermachine_controller.go:1300-1312 | an empty term admitted no host and after pinning admits the whole domain |
| Affinity.RepeatAdmitsSame | internal/controller/harvestermachine_controller.go:1300-1312 | any number of repetitions on the aliased spec admits the same hosts while each list grows by one |
| Affinity.SecondDomainAdmitsNone | internal/controller/harvestermachine_controller.go:1300-1312 | repeating for another domain of the same kind leaves no host |
| Affinity.PinnedToDomainHosts | internal/controller/failure_domains.go:111-127 | publication, selector and rewriting together: the VM may run exactly on the hosts of its domain that the user's terms admit |
| Affinity.BuildNodeAffinity | internal/controller/harvestermachine_controller.go:1262-1315 | the result aliases the machine's own affinity and holds its old terms rewritten, for the owner Machine's domain where it names one; nothing else is touched |
| Affinity.AppendToTerms | internal/controller/harvestermachine_controller.go:1300-1312 | every term of the shared array gets the requirement once, after what the user wrote |
| SecretDocs.GetSecrets | util/cloud_provider.go:276-307 | indexes strictly increase, list all Secret documents, and each Secret decodes its document |
| SecretDocs.FindSecretByName | util/cloud_provider.go:309-318 | the first Secret of that name and namespace, or none exists |
| SecretDocs.ModifyYAML | util/cloud_provider.go:334-392 | which document the edit replaces, in terms of how many Secrets precede the named one |
| SecretDocs.IntendedExactly | util/cloud_provider.go:334-392 | the edit hits the named Secret's own document if and only if every document before it is a Secret |
| SecretDocs.EditReadsBack | util/cloud_provider.go:334-392 | for any stream: one document is replaced or appended, all others stay, and the lookup then finds the new value |
| SecretDocs.EditWrites | util/cloud_provider.go:320-332 | what is written is the named Secret as it was but for the one key, or a new Opaque Secret with that single entry |
| SecretDocs.EditLosesDocument | util/cloud_provider.go:341-369 | otherwise an earlier, different document is overwritten and the old Secret stays |
| SecretDocs.EditTwice | util/cloud_provider.go:334-392 | appending and then editing keeps the other documents exactly when all of them are Secrets |
| CloudInit.MergeCloudInitData | util/cloudinit.go:28-85 | the nested loops give the specified merge or its error, in any key order |
| CloudInit.MergeKeys | util/cloudinit.go:44-74 | in any key order: fails exactly on a list section that is not a list, else the two objects merged |
| CloudInit.FailsExactly | util/cloudinit.go:36-75 | success exactly when every input is well-formed and every list section is a list |
| CloudInit.FailsWithFirst | util/cloudinit.go:36-64 | the error is that of the first input that cannot be used |
| CloudInit.RefusedExactly | util/cloudinit.go:47-64 | exactly the seven list sections refuse anything but a list, null included |
| CloudInit.ConcatenatesExactly | util/cloudinit.go:26-73 | exactly those seven are concatenated, and of every other key the second value stays |
| CloudInit.MergedContents | util/cloudinit.go:44-74 | list sections are concatenated in argument order, other keys have their last value, no key appears or disappears |
| CloudInit.MergeAssociative | util/cloudinit.go:44-74 | merging objects is associative |
| CloudInit.MergeHomomorphism | util/cloudinit.go:28-85 | merging xs followed by ys succeeds exactly when both do and equals merging the two results |
| VmPool.InvHolds | internal/controller/harvestercluster_controller.go:1113-1251 | the invariant over cluster, pass in progress and pools in every run, with spec and status patches lost independently |
| VmPool.GuardedDeleteSafety | internal/controller/harvestercluster_controller.go:788-812 | in every run the guarded delete removes only a pool of the generated name, never a referenced one, and one our create step made exactly when nobody retook the name |
| VmPool.OnlyOwnPoolsDeleted | internal/controller/harvestercluster_controller.go:788-812 | if nobody retakes the name every deleted pool is one this cluster made |
| VmPool.RetakenPoolDeleted | internal/controller/harvestercluster_controller.go:788-812 | for every generated name, a run with a lost patch in which another party's pool is deleted |
| VmPool.OwnPoolSurvivesExactly | internal/controller/harvestercluster_controller.go:774-821 | in every run, the pass that lets the cluster go leaves its own pool behind exactly when the mark or the reference is missing on the object and the load balancer's pool has another name |
| VmPool.LostPatchLeavesPool | internal/controller/harvestercluster_controller.go:1217-1251 | for every generated name, losing either part of the patch after the creation and then deleting the cluster leaves the pool behind |
| VmPool.UnguardedDeleteExactly | internal/controller/harvestercluster_controller.go:774-786 | the delete of the load balancer's pool removes the pool of the VM pool's name, whoever made it, exactly when the text before the suffixes has 63 characters or more |
| VmPool.FoundPoolDeletedExactly | internal/controller/harvestercluster_controller.go:774-786 | some run deletes a pool that the cluster only found, past the guard, exactly for such names |
| VmPool.PassIsTrace | internal/controller/harvestercluster_controller.go:1113-1251 | every pass, whatever the server answers, is a run of the state machine with the same outcome |
| VmPool.Scope.ReconcileVMIPPool | internal/controller/harvestercluster_controller.go:1113-1251 | the procedure leaves what such a pass leaves, and when it fails |
| VmPool.Scope.DeleteVMIPPool | internal/controller/harvestercluster_controller.go:788-821 | the procedure is the state machine's guarded delete |
| VmPool.Scope.DeleteLoadBalancerPool | internal/controller/harvestercluster_controller.go:774-786 | the procedure is the state machine's unguarded delete |
| Prefixes.MemberMatchesExactly | util/etcd.go:85-94 | exactly whose member matches a node name, for every node and dash-free hash |
| Prefixes.OwnMembersExactly | util/etcd.go:85-94 | matching picks the node's own members and no others if and only if no other name can be mistaken |
| Prefixes.RemovedMemberIsOwn | util/etcd.go:85-113 | the member removed for such a node is its own |
| Prefixes.ClaimNamesDistinct | internal/controller/harvestermachine_controller.go:720-720 | equal claim names of a machine mean the same disk and the same random id |
| Prefixes.PodReady | util/etcd.go:151-164 | ready exactly when running with a true Ready condition |
| Prefixes.FindHealthyEtcdPod | util/etcd.go:115-149 | a ready pod of another node, a labelled one if there are any, else one named etcd-, or there is none among those considered |
| Prefixes.RemoveEtcdMember | util/etcd.go:60-113 | runs on a ready pod of another node and removes the first matching member; nothing happens only if one of the three is missing |
| Prefixes.CleanedExactly | internal/controller/harvestermachine_controller.go:720-720 | exactly which machines' claims the prefix of a machine selects, for every disk number and random id |
| Prefixes.CleanupIsOwnExactly | internal/controller/harvestermachine_controller.go:1655-1683 | the cleanup leaves exactly the other machines' claims if and only if none of them is named n-disk or starts with n-disk- |
| Prefixes.RemainingMembers | internal/controller/harvestermachine_controller.go:1655-1683 | what remains is what lacks the prefix or could not be deleted |
| Prefixes.RemainingConcat | internal/controller/harvestermachine_controller.go:1668-1682 | claims are decided one by one and keep their order |
| Prefixes.DeletePVCsByPrefix | internal/controller/harvestermachine_controller.go:1655-1683 | the loop leaves those claims, in order; a failed list deletes nothing |
| Names.NameWellFormed | util/util.go:189-215 | at most 63 characters of [a-z0-9-], empty or starting with a letter, ending in a letter or digit unless truncated |
| Names.FixedPointExactly | util/util.go:189-215 | a generated name generates itself exactly when it does not end in a dash |
| Names.LabelsKeptExactly | util/util.go:189-215 | exactly the valid labels are kept as they are |
| Names.CaseIsFolded | util/util.go:194-195 | any spelling of a label in upper and lower case gives the label |
| Names.OthersBecomeDashes | util/util.go:197-199 | a character outside the alphabet becomes one dash |
| Names.DashesTrimmed | util/util.go:201-202 | any dashes around a label are dropped |
| Names.DigitGetsLetter | util/util.go:204-212 | a name that would start with a digit gets "a-" in front and is cut at 63 characters |
| Names.PoolNamesDifferExactly | internal/controller/harvestercluster_controller.go:774-777 | a cluster's two pool names differ exactly when the sanitised text before the suffix is shorter than 63 |
| Names.PoolNameNotEmpty | internal/controller/harvestercluster_controller.go:1157-1161 | a generated pool name is never empty |
| Names.ClustersShareName | util/util.go:189-215 | different clusters can have the same generated name |

## Left out

- AllocateVMIP: an Update that fails but was committed is not an outcome of this call; PoolOwnership covers it as a crash between commit and record.
- Convergence: assumes that an existing VM is meant to run; for a halted VM ReconcileNormal waits for somebody to start it.
- The width of the cached count (int64): counts are unbounded integers.
- The allocator library: its round-robin order, last reserved address, and behaviour on an empty range set or on history keys that are not addresses.
- IPv6 ranges: pool subnets are IPv4.
- Text formats: IP, CIDR, YAML and JSON parsing and printing are abstract codecs.
- Reads from a stale informer cache in the machine's life cycle: a pass fetches the current object.
- Looking up owner objects, pause handling and the other early exits of Reconcile: a pass that gives up.
- The clearing of node taints, node initialisation, etcd removal and IP release inside a delete pass: no field of the life-cycle model depends on them; etcd removal and release are modelled by themselves.
- The pod affinity and anti-affinity parts of buildAffinity: copied or defaulted without change.
- The load balancer, its IP pool creation and the VMIPPoolReady condition of the cluster controller.
- Errors returned, requeue delays, logging, metrics and events of the reconcile functions.
- Admission webhooks, API conversions, deep copies and the generated clientsets: flat or generated code.
- Fleet and Rancher labels, the cloud-provider service account, the VM template and the DHCP script.
