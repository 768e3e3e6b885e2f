# Models and proofs for mvmctl

Dafny models of the parts of mvmctl where state, text or ordering can go wrong, with theorems
about them. `dafny verify dfyconfig.toml` checks everything. Each module models one area and
states the laws of that area for all inputs, all runs or all interleavings.

| module | models |
|---|---|
| `Tables`, `Relations`, `RelationLaws`, `Includes`, `Enricher` | VM enrichment: batched lookups written into shared heap objects, against a plain join; include lists |
| `Reverse`, `InUse` | reverse relations (who names a kernel, image or volume), and kernel and image remove and prune on top of them |
| `PhantomLink`, `Restore` | snapshot restore: the lock around the shared phantom symlink, and the per-VM loop with its exits |
| `Leases`, `LeaseRace` | the lease table and address allocation, sequentially and with concurrent callers |
| `Volumes` | attach, detach and remove over the volume and VM tables |
| `Defaults` | pulling and importing images, the default flag, presence and deletion |
| `Upgrade` | the agent upgrade lock with its 60 s staleness, for any number of clients |
| `Wizard` | the init wizard loop |
| `Strings`, `Shlex`, `Template`, `TemplateMeaning`, `Dedent` | text: shell quoting, templates, dedenting |
| `Merge`, `Relay` | deep merge of settings; relaying a remote command's frames |

Code that updates state in place is modelled by classes and methods over heap objects, tables in
fields, and loops; each is proved equal to a function on values, and the laws are lemmas about
those functions. Code made of expressions is modelled by functions.

## What the proofs found

The code is modelled as it is. Where an expected property does not hold, a lemma gives an input
that breaks it and a theorem says exactly when it holds.

- **Phantom link.** Errors from opening the lock file and from taking the lock are not fatal. Every
  load finds its own rootfs exactly when no process can fail at either, or there is at most one
  process (`SafeExactlyWhenGuarded`).
- **Restore exits.** The vsock, remove-link and create-link errors return without rolling back, and
  the cleanup does not notice a failed delete or release. The VM table is as before the call exactly
  on the other exits with every row deleted, and what a failed cleanup leaves is listed row by row
  and lease by lease. The call ends at the first VM with an exit, where leasing fails for VM i exactly
  if its write does or no more than i addresses were left at the start (`SnapshotRestore`).
- **Removal ignores enrichment errors.** `KernelRemove` and `ImageRemove` drop the enricher's error,
  so an unanswered reverse query reads as "not in use", and a hard failure of the VM query also
  keeps the snapshots from being looked up. A plain removal leaves no dangling reference exactly
  when every named item it can delete has a reference it sees (`PlainKernelRemovalIsSafe`).
- **Images of snapshots.** Snapshots name images too, but image removal only asks for VMs: with every
  query answered it takes the image of a snapshot whose VM is gone (`RemovalOrphansASnapshot`,
  exactly when in `PlainImageRemovalKeepsSnapshots`).
- **Detach asks nobody.** Detaching through a VM that does not own the volume frees a volume that its
  owner goes on listing (`DetachKeepsAgreement`, `DetachByAnotherVM`).
- **Shareable volumes.** A shareable read-only volume is removed without force from under the VMs
  that list it (`RemoveKeepsAgreement`, `RemoveSharedWhileListed`).
- **VM creation looks at no status.** A VM created with an attached volume takes its row from under
  the VM that has it (`CreateVMKeepsAgreement`, `CreateVMTakesAttachedVolume`).
- **Failed writes.** Failed table writes of attach, detach, volume removal, VM creation and VM removal
  are only logged or dropped. A run, with any of them failing, keeps the tables in agreement throughout
  exactly if every operation in it is careful (`RunAgreesIffCareful`), and a removal call over many
  volumes exactly if the removal of each is (`RemoveManyKeepsAgreement`).
- **Upgrade lock.** Finding the lock held is only logged, so the lock keeps upgrades apart only for a
  lone client (`ExclusiveExactlyWhenAlone`). A client that read a stale row later clears whatever
  lock is there: no step takes away a lock younger than 60 s that another client holds exactly when
  there is at most one client (`FreshLocksSafeExactlyWhenAlone`, with two clients in
  `FreshLockClearedByStaleReader`). Heeding the lock would keep upgrades apart
  (`HeededRunIsExclusive`).
- **Leases.** `Acquire` of a taken in-memory address returns the existing lease, which two concurrent
  callers both take for their own, and `LeaseSpecific` does not look at what `Acquire` returned.
  Given who calls `Lease` and who asks for what, no interleaving shares an address exactly when the
  addresses asked for differ, `Lease` has too few callers to reach one of them, and, with the in-memory
  table, at most one caller (`NeverSharesExactlyWhenSafe`).
- **Overlapping pulls.** The last writes of a pull may be lost, and what it found was read before the
  download. It leaves one live image of its version exactly when the new one is not written, or every
  other live one is the one found and its retirement goes through (`PullKeepsOneLive`,
  `RunKeepsOneLiveIffUncontested`; `OverlappingPullsCollide`, `LostRetirementLeavesTwo`). There is
  never more than one default, but it can be lost: exactly when in `DefaultSurvivesPull`, by way of
  one made the default during the download in `DefaultMadeMeanwhileIsLost`.
- **Templates.** A placeholder followed by a literal `}` pairs its braces leftmost, braces from values
  read as placeholders, and `}OPEN` before a brace shares a NUL between two markers
  (`RenderExactlyWhenClean`).
- **Batched volumes.** Keys are joined with NUL and remembered per VM id: the result is the naive one
  exactly for NUL-free ids and agreeing rows of one VM id (`BatchedVolumesAreNaive`).
- **Deep merge** is associative exactly without map, non-map, map at one path
  (`AssociativeExactlyWhenNoClash`).

## Model

| member | source | states |
|---|---|---|
| Tables.Group | internal/enricher/enrich.go:421-425 | one slice per key, in row order: for every key the filter of the rows |
| Tables.Index | internal/enricher/enrich.go:488-491 | for every key the last row with it |
| Tables.CollectUnique | internal/enricher/enrich.go:1132-1143 | the non-empty values, each once, in order of first appearance |
| Tables.WhereSelected | internal/testutil/lease.go:81-95 | narrowing the query to the wanted keys changes no wanted group |
| Tables.WhereFinds | internal/enricher/enrich.go:421-425 | a group holds exactly the rows with its key |
| Tables.GroupsPartition | internal/enricher/enrich.go:694-697 | the groups of distinct parents partition the batch: lengths add up |
| RelationLaws.EnrichedTwice | internal/enricher/enrich.go:243-283 | two enrichments are one with both sets of relations, unless networks are replaced after their leases were assigned |
| RelationLaws.FailsNowOrLater | internal/enricher/enrich.go:243-283 | a run fails iff its first relation fails now or the rest fails after it |
| RelationLaws.RunIsJoin | internal/enricher/enrich.go:243-283 | running the relations one by one, parents first, is the plain join over their set; it fails iff some included lookup fails hard, and then a prefix is joined |
| RelationLaws.AnyOrderGivesTheSameHeap | internal/enricher/enrich.go:231-283 | two orders with the same relations, both parents first, succeed alike and end in the same heap |
| RelationLaws.OrderMattersUnsorted | internal/enricher/enrich.go:393-395 | leases before networks gives another heap: the sort is needed |
| RelationLaws.EveryNetworkHasItsLeases | internal/enricher/enrich.go:395-440 | every VM's network, shared or not, ends with exactly the leases of its id, in repository order, and with none if it has no id; without any id nothing changes |
| RelationLaws.BatchedIDsExact | internal/enricher/enrich.go:519-574 | each VM gets its own id list resolved iff ids are NUL-free and VMs of one id agree |
| RelationLaws.ListsToldApart | internal/enricher/enrich.go:498-514 | different id lists resolve differently in some table with unique ids |
| RelationLaws.BatchedVolumesAreNaive | internal/enricher/enrich.go:458-574 | over all volume tables, batched volumes are the ids looked up in order with missing ones dropped, iff ids are NUL-free and VMs of one id agree |
| Includes.SortIsStable | internal/enricher/batch.go:12-19 | sorted by dot count, same paths, equal counts keep their order |
| Includes.StableSortIsUnique | internal/enricher/batch.go:12-19 | those properties determine the result |
| Includes.ResolveInclude | internal/enricher/enrich.go:1120-1129 | empty list refused, first unknown path reported, else the sorted list |
| Includes.SortPutsParentsFirst | internal/enricher/enrich.go:1120-1129 | after the sort, networks run before their leases and the same relations run |
| Enricher.LookupAll | internal/enricher/enrich.go:291-303 | fails iff some non-empty key fails hard; else exactly the rows found |
| Enricher.Enricher.AssignKernels | internal/enricher/enrich.go:304-308 | an empty key leaves the field alone, a key without a row clears it |
| Enricher.Enricher.EnrichKernel | internal/enricher/enrich.go:286-310 | the heap is the join for kernels, or the lookup failed hard and nothing was written |
| Enricher.Enricher.EnrichImage | internal/enricher/enrich.go:313-337 | the same for images |
| Enricher.Enricher.EnrichBinary | internal/enricher/enrich.go:340-364 | the same for binaries |
| Enricher.Enricher.EnrichNetwork | internal/enricher/enrich.go:367-391 | the same for networks, whose objects VMs share |
| Enricher.Enricher.ParentIDs | internal/enricher/enrich.go:396-404 | the ids of the networks the VMs have; empty iff no network has an id |
| Enricher.Enricher.AssignLeases | internal/enricher/enrich.go:427-438 | each parent gets its group through whichever VM; other networks keep theirs |
| Enricher.Enricher.EnrichNetworkLeases | internal/enricher/enrich.go:395-440 | the heap is the join for leases |
| Enricher.Enricher.ResolveByVMVolumeIDs | internal/enricher/enrich.go:458-515 | for every joined key, the split ids looked up in order; fails as the query does |
| Enricher.Enricher.VolumeKeys | internal/enricher/enrich.go:520-532 | every joined list once; none iff no VM lists a volume |
| Enricher.Enricher.KeyByVM | internal/enricher/enrich.go:548-554 | per VM id the list of the last VM with it that lists any |
| Enricher.Enricher.EnrichVolumes | internal/enricher/enrich.go:519-574 | the heap is the join for volumes |
| Enricher.Enricher.EnrichVsock | internal/enricher/enrich.go:578-603 | the heap is the join for vsock rows; a VM without a row keeps its field |
| Enricher.Enricher.EnrichFromPaths | internal/enricher/enrich.go:243-283 | the heap runs through the relations as the value-level run does |
| Enricher.Enricher.EnrichVM | internal/enricher/enrich.go:231-241 | verdict and heap depend on the include list only as a set: bad list, hard failure of some included lookup with a joined prefix, or the plain join |
| Reverse.GroupFor | internal/enricher/enrich.go:858-873 | one query, grouped: for every asked id the rows naming it |
| Reverse.EnrichKernelVMs | internal/enricher/enrich.go:857-890 | each kernel holds the VMs naming it if the query was answered, else what it held |
| Reverse.EnrichKernelSnapshots | internal/enricher/enrich.go:893-928 | the same for snapshots |
| Reverse.EnrichKernel | internal/enricher/enrich.go:822-854 | VMs, then snapshots; a hard VM failure leaves the snapshots unasked |
| Reverse.EnrichImage | internal/enricher/enrich.go:783-816 | each image holds the VMs naming it if the query was answered |
| Reverse.GroupByVolume | internal/enricher/enrich.go:1094-1099 | per volume, each VM once per time it lists the volume |
| Reverse.ListingsOfAnswer | internal/testutil/vm.go:243-264 | the batch answer holds every listing of the asked volumes |
| Reverse.EnrichVolumeVMs | internal/enricher/enrich.go:1079-1114 | each volume holds the listings of the whole table if the query was answered; one without an id, those of its answer |
| Reverse.ListingsAreExact | internal/enricher/enrich.go:1094-1112 | each volume's VMs are those listing it, each once and in order, for every volume iff no VM lists a volume twice |
| InUse.PlainRemovalIsExact | pkg/api/kernel.go:352-385 | a plain call leaves exactly the rows no target takes, untouched |
| InUse.ForcedRemovalKeepsReferencedRow | internal/core/kernel/service.go:549-552 | a forced removal of a referenced kernel keeps its row, marked deleted |
| InUse.SeenMeansVisible | pkg/api/kernel.go:351-353 | what the removal counts is a reference the call could see |
| InUse.PlainKernelRemovalIsSafe | pkg/api/kernel.go:335-390 | no VM or snapshot is left naming a removed kernel iff each deletable, named, resolved kernel has a visible reference |
| InUse.AnsweredQueriesAreSafe | pkg/api/kernel.go:335-390 | with both queries answered, never |
| InUse.FailedQueryOrphansAVM | pkg/api/kernel.go:350-351 | with a failed VM query, a kernel named by a VM and a snapshot is removed |
| InUse.PlainImageRemovalIsSafe | pkg/api/image.go:529-574 | no VM is left naming a removed image iff the query is answered or every named image resists deletion |
| InUse.PlainImageRemovalKeepsSnapshots | internal/enricher/enrich.go:84-90 | no snapshot is left naming a removed image iff each resolved image that a snapshot names resists deletion or has a VM the call sees |
| InUse.RemovalOrphansASnapshot | internal/enricher/enrich.go:84-90 | with any answers the image of a snapshot without VMs is removed |
| InUse.Store.KernelRemove | pkg/api/kernel.go:335-390 | the results and the kernel table, item by item, from the references seen, or held before where the query was not answered |
| InUse.FreshItemsTargets | pkg/api/kernel.go:336-353 | for items without earlier relations those are the references seen |
| InUse.Store.ServiceRemoveKernel | internal/core/kernel/service.go:520-553 | refused, failed, soft or hard, and the table after it |
| InUse.Store.KernelPrune | pkg/api/kernel.go:49-88 | a dry run changes nothing and lists the candidates; the real list is the candidates whose removal succeeds |
| InUse.KeepIsSubsequence | pkg/api/kernel.go:68-86 | so the real list is a subsequence of the dry run's |
| InUse.PlainPruneIsExact | pkg/api/kernel.go:49-88 | without include-all, exactly the rows whose call succeeds are gone |
| InUse.PlainPruneIsSafe | pkg/api/kernel.go:49-88 | a plain prune orphans nothing iff each completed removal of a named kernel could see a reference |
| InUse.PlainPruneSpares | pkg/api/kernel.go:54-77 | the default and what the VM list names stay, if their query was answered |
| InUse.Store.ImageRemove | pkg/api/image.go:529-574 | the results and the image table, from the VMs seen or held before |
| InUse.FreshImageItemsTargets | pkg/api/image.go:531-547 | for images without earlier relations those are the VMs seen |
| InUse.Store.ServiceRemoveImage | internal/core/image/service.go:76-102 | refused, failed, soft or hard, and the table after it |
| InUse.Store.ImagePrune | pkg/api/image.go:63-104 | a dry run changes nothing and lists the candidates; the real list is the candidates whose removal succeeds |
| InUse.PlainImagePruneIsSafe | pkg/api/image.go:63-104 | a plain image prune orphans no VM iff each completed removal of a named image had its query answered |
| InUse.PlainImagePruneKeepsSnapshots | pkg/api/image.go:63-104 | the same of snapshots for a plain image prune, call by call |
| PhantomLink.SafeExactlyWhenGuarded | pkg/api/snapshot.go:529-587 | in every interleaving each load finds its own rootfs, iff no process can fail to open the lock file or to obtain the lock, or there is at most one |
| PhantomLink.StepKeepsInv | pkg/api/snapshot.go:529-587 | the section's invariant: the link is the holder's own between link and load |
| PhantomLink.LockReleasedOnEveryWayOut | pkg/api/snapshot.go:541-587 | on success, remove, symlink and load error, and death, the lock is free again; nobody waits forever on a free path |
| Restore.Operation.CleanupRestoredVM | pkg/api/snapshot.go:608-621 | the VM's row and its leases go, each unless its deletion fails, and nothing else |
| Restore.Operation.Rollback | pkg/api/snapshot.go:340-350 | all created VMs are cleaned up, in order, whether or not a cleanup fails |
| Restore.CleanedAllUndoes | pkg/api/snapshot.go:608-621 | cleaning up every created VM gives the lease table back, but for exactly the leases that could not be released |
| Restore.UndoneExactly | pkg/api/snapshot.go:608-621 | the VM table is as before iff every row was deleted; the lease table iff every lease was released and none was under construction |
| Restore.Operation.CreateRecord | pkg/api/snapshot.go:340-432 | the rolled-back steps for one VM and what each leaves |
| Restore.Operation.Boot | pkg/api/snapshot.go:446-587 | the steps after the record: only the VM's status changes |
| Restore.Operation.SnapshotRestore | pkg/api/snapshot.go:332-604 | the call ends at the first VM with an exit, an exhausted network counting as a failed lease; rolled-back exits leave exactly the rows and leases whose cleanup failed and the lease of the VM under construction; the VM table is unchanged iff the exit rolls back and every row was deleted; completion returns the requested names in order and counts the errors, which the rows show unless the status write failed |
| Restore.CountErrorsIsNumberMarked | pkg/api/snapshot.go:588-604 | the error count is the number of VMs marked as errors |
| Leases.RunKeepsValid | internal/testutil/lease.go:97-150 | over every run, (network, address) pairs and ids are unique and ids are below the next one |
| Leases.ReleaseUndoesExactlyFreshAcquire | internal/testutil/lease.go:97-137 | release undoes an acquire iff the address was free |
| Leases.KeptIsSubsequence | internal/testutil/lease.go:139-150 | release by VM keeps the other leases, in order |
| Leases.KeptAreTheOthers | internal/testutil/lease.go:139-150 | exactly the leases of the named VM go |
| Leases.CountIsDistinctAddrs | internal/testutil/lease.go:160-183 | the leases of a network count its distinct addresses |
| Leases.LeaseRepo.Acquire | internal/testutil/lease.go:97-125 | a taken address gives the lease that is there, a free one a new lease with the next id |
| Leases.LeaseRepo.Release | internal/testutil/lease.go:127-137 | the lease of the address is spliced out |
| Leases.LeaseRepo.ReleaseByVM | internal/testutil/lease.go:139-150 | the table is rebuilt without the VM's leases |
| Leases.LeaseRepo.CountAvailable | internal/testutil/lease.go:160-183 | total less gateway less distinct leased addresses, at least 0 |
| Leases.AllocateNextIP | internal/lib/network/network.go:154-188 | the scan finds what the recursive search finds |
| Leases.NextIPIsLowest | internal/lib/network/network.go:154-188 | the lowest assignable address, none iff there is none |
| Leases.OneLessLeft | internal/lib/network/network.go:154-188 | each lease of an assignable address leaves one address less |
| Leases.LeaseNext | internal/core/network/lease_controller.go:87-126 | alone on the table, one attempt takes the lowest free address, and there is one iff any is left |
| LeaseRace.NeverSharesExactlyWhenSafe | internal/core/network/lease_controller.go:87-144 | these callers of `Lease` and askers never share an address, in any interleaving, iff the asks differ, no ask is within reach of `Lease`, and taken addresses are refused or at most one calls `Lease` or no address is assignable |
| LeaseRace.RunKeepsInv | internal/core/network/lease_controller.go:87-144 | in every run of such calls what `Lease` gave is recorded for its VM and asked for by nobody |
| LeaseRace.PickIsWithinReach | internal/lib/network/network.go:154-188 | `Lease` can only pick an address below which other VMs hold all that nobody asks for |
| LeaseRace.ReachedIsShared | internal/core/network/lease_controller.go:129-144 | for each ask within reach there is a run that shares it |
| LeaseRace.DistinctAsksSuffice | internal/core/network/lease_controller.go:129-144 | where nobody calls `Lease`, iff the asks differ |
| LeaseRace.NeverSharedExactlyWhenRefusedAndUnasked | internal/core/network/lease_controller.go:87-144 | so, whoever calls, addresses are never shared iff the repository refuses taken ones and no specific address is asked for |
| LeaseRace.AskedTwice | internal/core/network/lease_controller.go:129-144 | among whatever other calls, two callers asking for one address can both get it, with either repository |
| LeaseRace.RunKeepsRecorded | internal/core/network/lease_sqlite.go:57-76 | with insert-or-ignore every address handed out by `Lease` is recorded for its VM, from any such state, and none is shared |
| LeaseRace.RaceSharesAddress | internal/testutil/lease.go:97-125 | among whatever other calls, with the in-memory table two callers can get one address |
| Volumes.AttachedMeansOneOwner | pkg/api/volume.go:229-433 | in agreeing tables an ordinary volume is attached iff some VM lists it iff exactly its VM does |
| Volumes.NoRemovedVolumeListed | pkg/api/volume.go:79-161 | in agreeing tables no VM lists a removed volume |
| Volumes.AttachKeepsAgreement | pkg/api/volume.go:229-345 | exactly when attach keeps the tables in agreement, including failed writes |
| Volumes.DetachKeepsAgreement | pkg/api/volume.go:348-433 | exactly when detach does, including detach by another VM |
| Volumes.RemoveKeepsAgreement | pkg/api/volume.go:109-147 | exactly when removing a volume does |
| Volumes.DetachByAnotherVM | pkg/api/volume.go:409-425 | detach through a VM that is not the owner breaks agreement |
| Volumes.RemoveSharedWhileListed | pkg/api/volume.go:112-114 | a shareable read-only volume goes while a VM lists it |
| Volumes.StepKeepsAgreementIffCareful | pkg/api/volume.go:42-433 | one operation on volumes or VMs, with whatever writes failing, keeps agreement iff it is careful |
| Volumes.RunAgreesIffCareful | pkg/api/volume.go:42-433 | a run of volume creation, attach, detach and removal and VM creation and removal agrees throughout iff every operation is careful |
| Volumes.RemoveManyKeepsAgreement | pkg/api/volume.go:79-161 | a call over distinct volumes, each with its own failing writes, keeps agreement iff the removal of each is careful |
| Volumes.RepeatedRemovalsKeepAgreement | pkg/api/volume.go:79-161 | with repeated volumes and no failing writes it keeps agreement and takes only what was asked |
| Volumes.CreateVMKeepsAgreement | pkg/api/vm.go:220-228 | creating a VM with volumes keeps agreement iff each tracked one is free and marked exactly when listed, or has an owner and is neither |
| Volumes.CreateVMTakesAttachedVolume | pkg/api/vm.go:220-228 | a VM created with an attached volume breaks agreement |
| Volumes.ResolvedIsExact | internal/core/volume/resolver.go:111-140 | the volumes asked for that have a row, each once |
| Volumes.RemoveVMKeepsAgreement | pkg/api/vm.go:840-855 | removing a VM keeps agreement iff each tracked volume it lists is freed exactly when its row goes |
| Volumes.Store.VolumeAttach | pkg/api/volume.go:229-345 | when it is refused, and both tables after it |
| Volumes.Store.VolumeDetach | pkg/api/volume.go:348-433 | both tables after it; the list is filtered in order |
| Volumes.Store.VolumeRemove | pkg/api/volume.go:79-161 | which volumes are refused, and both tables after it, with writes failing per volume |
| Volumes.Store.SetVolumeRow | internal/core/volume/controller.go:22-72 | shareable read-only volumes are left alone |
| Volumes.Store.ResolveMany | internal/core/volume/resolver.go:111-140 | the loop keeps each volume once, in the order asked |
| Volumes.Store.SetVolumesState | internal/core/volume/service.go:132-172 | every tracked volume whose write goes through is attached to the VM, or freed if it was attached |
| Volumes.Store.VMCreate | pkg/api/vm.go:220-228 | both tables after it, whichever writes fail |
| Volumes.Store.VMRemove | pkg/api/vm.go:840-855 | both tables after it, whichever writes fail |
| Defaults.PullKeepsOneLive | pkg/api/image.go:318-331 | whatever was found and whichever writes fail, one live image per version after a pull iff the new one is not written or every other live one is the one found and is retired |
| Defaults.PullMovesDefault | pkg/api/image.go:318-331 | the defaults after a pull, whatever was found and whichever writes fail |
| Defaults.DefaultSurvivesPull | pkg/api/image.go:318-331 | there is a default afterwards iff the mark is made on an undeleted row, or none is made and the default's row is not displaced |
| Defaults.DefaultMadeMeanwhileIsLost | pkg/api/image.go:202-331 | an image made the default during the download is retired with its mark |
| Defaults.PullHandsDefaultOver | pkg/api/image.go:318-331 | with an up-to-date lookup and all writes done the default goes to the new image if asked or if the replaced one was the default, else it stays |
| Defaults.SetDefaultIsExact | internal/testutil/image.go:160-174 | the only undeleted default is the one set, if it is there |
| Defaults.TypeDefaultIsSafe | internal/testutil/binary.go:145-159 | one default per type is kept iff the type passed is the binary's own or it has no rival |
| Defaults.TypeDefaultSets | internal/core/binary/controller.go:28-30 | with its own type it becomes its type's default and other types keep theirs |
| Defaults.RunKeepsOneDefault | pkg/api/image.go:107-489 | over every run of pulls and imports with any writes lost, of their statements interleaved, set-default, deletes and lost presence: at most one default |
| Defaults.RunKeepsOneLiveIffUncontested | pkg/api/image.go:107-489 | such a run keeps one live image per version throughout iff every operation in it is uncontested |
| Defaults.StepKeepsOneLiveIffUncontested | pkg/api/image.go:107-489 | each operation keeps it iff it puts no live image beside another of its version |
| Defaults.UndisturbedRunKeepsOneLive | pkg/api/image.go:200-331 | pulls that are not overtaken and whose retirements go through keep it |
| Defaults.PullIsItsStatements | pkg/api/image.go:318-331 | an end of a pull that is not overtaken is its statements in order |
| Defaults.LostRetirementLeavesTwo | pkg/api/image.go:325-327 | a lost retirement alone leaves two live images |
| Defaults.RunKeepsDefaultPerType | internal/testutil/binary.go:105-196 | over every run of adding, setting the own default, deleting and losing presence: at most one default binary per type |
| Defaults.OverlappingPullsCollide | pkg/api/image.go:202-212 | two pulls that both looked first leave two live images |
| Defaults.PresenceKeepsOneLive | internal/testutil/image.go:189-198 | marking items present, which the interface allows and no caller does, keeps one live image per version iff no marked one shares its version with another that is present or marked |
| Defaults.ImageRepo.SetDefault | internal/testutil/image.go:160-174 | clear all undeleted, then set one |
| Defaults.ImageRepo.GetByVersionAndType | internal/testutil/image.go:82-91 | some live image of the version, or none when there is none |
| Defaults.ImageRepo.ImagePull | pkg/api/image.go:200-331 | the early return, the failed build that changes nothing, or the hand-over, with a failed lookup reading as nothing found and each last write done or lost |
| Defaults.ImageRepo.ImageImport | pkg/api/image.go:367-471 | the same, deleting an unreferenced old image for good |
| Defaults.BinaryRepo.SetDefault | internal/testutil/binary.go:145-159 | clear one type, then set one |
| Defaults.BinaryRepo.SetOwnDefault | internal/core/binary/controller.go:28-30 | a resolved binary's own type is passed, so one default per type is kept |
| Upgrade.RunKeepsRow | internal/testutil/vsock.go:69-98 | in every run the start time is set exactly while the lock is held |
| Upgrade.ClearBetweenSets | internal/testutil/vsock.go:69-98 | in every run two successful sets have a clear between them |
| Upgrade.OwnedExactlyWhenClearsLast | pkg/api/cp.go:186-206 | a held lock belongs to an upgrade in flight or crashed in every run iff no clear is lost |
| Upgrade.ExclusiveExactlyWhenAlone | pkg/api/cp.go:186-191 | at most one client upgrades in every run iff there is at most one client |
| Upgrade.HeededRunIsExclusive | internal/core/vsock/client.go:566-585 | of the runs the code allows, those in which no set meets a held lock and no stale lock is cleared exclude concurrent upgrades |
| Upgrade.FreshLocksSafeExactlyWhenAlone | pkg/api/cp.go:169-206 | in every run no clearing step takes away a lock younger than 60 s that another client holds, iff there is at most one client |
| Upgrade.FreshLockClearedByStaleReader | pkg/api/cp.go:169-179 | with any two clients, the one that read a stale row can clear the other's fresh lock |
| Upgrade.StepsWriteTheRow | internal/testutil/vsock.go:69-98 | the steps of a run write the row exactly as the repository's set and clear do |
| Upgrade.VsockRepo.SetUpgradeLock | internal/testutil/vsock.go:69-85 | fails exactly on a missing row or a held lock |
| Upgrade.VsockRepo.ClearUpgradeLock | internal/testutil/vsock.go:87-98 | clears flag and start time of that VM only |
| Upgrade.VsockRepo.NewVsockClient | pkg/api/cp.go:162-179 | refused iff the row read holds a lock younger than 60 s; else a held lock is cleared |
| Wizard.HandlingSettles | internal/cli/init.go:135-273 | every handled question lowers host pending (twice), guestfs undecided, download unset |
| Wizard.WizardEnds | internal/cli/init.go:279-312 | at most five runs, three with the host skipped, three unattended, whatever is answered |
| Wizard.BoundIsReached | internal/cli/init.go:279-312 | five runs happen: guestfs, download, sudo, download again |
| Wizard.HostReady | pkg/api/init.go:140-154 | ready iff the host and the binary step succeeded |
| Wizard.InitRunFull | pkg/api/init.go:85-155 | the steps with their outcomes, as far as the first stage that asks; ready iff nothing is asked and host and binary succeeded |
| Wizard.ReportedSteps | pkg/api/init.go:85-155 | the step names are a prefix of the six stages, all six when nothing is asked; a question means the last step failed |
| Wizard.InitState.HandleSudoRequired | internal/cli/init.go:150-234 | the state after it, and when it gives up |
| Wizard.InitState.HandleBinaryDownload | internal/cli/init.go:237-259 | the state after it, and when it gives up |
| Wizard.InitState.HandleGuestfsChoice | internal/cli/init.go:262-273 | the state after it, and when it gives up |
| Wizard.HandleInteractiveFlow | internal/cli/init.go:279-312 | the loop ends within the bound; the last run's result is returned unless cancelled, and asks nothing iff finished |
| Strings.SplitJoin | internal/enricher/enrich.go:467-468 | split undoes join iff the list is non-empty and separator-free |
| Strings.JoinSplit | internal/infra/template.go:59-92 | join undoes split for every text |
| Shlex.ReadShlexQuote | internal/infra/cast.go:89-103 | anywhere between words a quoted string reads as one word, itself |
| Shlex.ShellReadsBackQuotedList | internal/infra/cast.go:89-103 | the shell reads the space-joined quoted list back as that list, for all lists |
| Shlex.QuotedListInjective | internal/infra/cast.go:89-103 | different lists never give one command line |
| Template.FindMissingPlaceholders | internal/infra/template.go:38-56 | the index loop collects the keys the recursive reading finds |
| Template.RenderTemplate | internal/infra/template.go:12-36 | the passes, for some order of the bindings |
| TemplateMeaning.RenderExactlyWhenClean | internal/infra/template.go:12-36 | rendering a printed document gives its meaning iff no placeholder is followed by a literal closing brace, no unescaped brace pair is left in the output, and no NUL is shared |
| TemplateMeaning.RenderTemplateGivesMeaning | internal/infra/template.go:12-36 | the result of rendering a printed document, in whatever order the bindings were listed, is its meaning iff it is clean |
| TemplateMeaning.RenderNamesFirstMissing | internal/infra/template.go:26-29 | otherwise the first missing placeholder is named |
| TemplateMeaning.EscapedTextRendersBack | internal/infra/template.go:12-36 | a brace-doubled text renders back iff it does not hold the opening marker's word between braces |
| TemplateMeaning.OpenWordIsMisread | internal/infra/template.go:13-18 | one such text that does not |
| Dedent.Dedent | internal/infra/template.go:59-93 | the two loops compute the dedented text |
| Dedent.MinIndentIsMinimum | internal/infra/template.go:65-75 | the smallest indentation of the non-blank lines, attained |
| Dedent.DedentedShape | internal/infra/template.go:59-93 | same number of lines, non-blank ones lose exactly that much, one ends with none; unchanged if all are blank |
| Dedent.DedentIsIdempotent | internal/infra/template.go:59-93 | dedenting twice is dedenting once |
| Dedent.DedentUndoesIndent | internal/infra/template.go:59-93 | dedenting undoes indenting iff some non-blank line was not indented |
| Merge.DeepMergeDict | internal/infra/constants.go:1059-1074 | the loop computes the recursive merge |
| Merge.MergeLookup | internal/infra/constants.go:1059-1074 | at every path the override decides, except that two maps merge |
| Merge.MergeEmpty | internal/infra/constants.go:1059-1074 | the empty map is an identity on both sides |
| Merge.Idempotent | internal/infra/constants.go:1059-1074 | merging a map with itself changes nothing |
| Merge.RepeatedOverride | internal/infra/constants.go:1059-1074 | a repeated override changes nothing |
| Merge.AbsorbsExactlyWhenCovered | internal/infra/constants.go:1059-1074 | the result is the override iff it covers the base at every depth |
| Merge.AssociativeExactlyWhenNoClash | internal/infra/constants.go:1059-1074 | associative iff no non-map stands between two maps, unless the last covers the first |
| Merge.NotAssociative | internal/infra/constants.go:1059-1074 | three maps for which it is not |
| Relay.Relay | internal/vsockhandler/handler.go:220-285 | exactly the non-empty outputs before the first result, in order, then one report; the first lost output ends it without a report |
| Relay.StreamsArriveWhole | internal/vsockhandler/handler.go:242-259 | each stream arrives byte for byte |
| Relay.FateIsOkIffResultReached | internal/vsockhandler/handler.go:260-279 | no error is returned iff the first result is reached and carries none |

## Left out

- Includes.ResolveInclude: does not state the text of the error, which lists the registry.
- InUse.Store.KernelPrune: whether a listed id resolves is a parameter, and an id that resolves is taken to resolve to its own row.
- InUse.Store.ImagePrune: the same as for kernels.
- Shlex.ShellReadsBackQuotedList: is about word splitting; a first word that reads as an assignment is a matter of the command's place in the line.
- Leases.LeaseNext: is the call alone on the table; the retry loop is in LeaseRace, and repository errors are a failing step of the restore.
- Leases.AllocateNextIP: works on addresses as numbers; parsing of subnets and dotted quads is not part of this model.
- Merge.DeepMergeDict: works on values, so the sharing of nested maps between base, override and result is not captured.
- Restore.Operation.SnapshotRestore: takes the generated VM ids to be distinct and unused; TAP devices, directories, processes and vsock rows are not in the ledger.
- Defaults.PullHandsDefaultOver: is the case of an up-to-date lookup, a new id and all writes done; Defaults.PullMovesDefault covers the others.
- The remaining reverse and single-key relations (networks, binaries, snapshots): the same shape as kernels and images.
- Repositories other than the in-memory ones, except for the lease insert and for the default kernel and image (the undeleted one marked default), which follow SQLite; both kinds answer a query with a filter of the table.
- Random order of map iteration in the lists the repositories return: rows are in a fixed but arbitrary order.
- Processes, sockets, files and downloads: each is a step that succeeds or fails, or a parameter. Reads and writes of the database fail where the code drops or only logs the error.
- Image and kernel building, command wiring, prompts' texts, progress output, logging and the audit log.
- Wall-clock behaviour beyond the one comparison with 60 s.
