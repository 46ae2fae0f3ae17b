# PMEM-CSI in Dafny

PMEM-CSI is a node-local storage driver for persistent memory that implements the Container Storage Interface, together
with an operator that deploys it. This project models the parts of it that have to get things right in the face of
crashes, concurrency, machine arithmetic or repetition, and proves what they are for.

- **Volume life cycle** (`lifecycle.dfy`, `lifecycle_runs.dfy`): persisted entries, devices and the in-memory volume list
  as a transition system. Any number of CreateVolume and DeleteVolume calls run concurrently, one atomic step at a time;
  the process may die and the machine may lose power between any two steps. No run leaks a device, restart recovery is
  exact and repeatable, and a request that is retried after a crash gets the same volume, unless the crash left the
  temporary file of an entry behind: then every later attempt fails.
- **Recovery** (`recovery.dfy`): what becomes of it when listing devices or reading entries fails, which is only logged,
  and exactly when that makes later calls leak devices.
- **Node controller** (`nodecontroller.dfy`): the same as the program it is, a class whose methods update its fields.
  Every call, whatever fails in it, is shown to be one run of the life cycle.
- **File state** (`filestate.dfy`, `persistence.dfy`): temporary file, rename and directory sync with a crash or power
  loss at any point, why writing and removing a file refine the steps of the life cycle, and why the two versions per
  entry that the life cycle knows are enough.
- **Ephemeral volumes** (`ephemeral.dfy`, `ephemeral_runs.dfy`): NodePublishVolume and NodeUnpublishVolume on top of the
  node controller, cut off anywhere and repeated at will.
- **Parameters** (`parameters.dfy`): the codec for volume parameters along the paths on which the driver uses it.
- **Space** (`alignment.dfy`, `capacity.dfy`, `budget.dfy`, `totals.dfy`, `devicemanagers.dfy`): alignment, the reported
  maximum volume size, the percentage budget, the logical volumes with their cache, and the fake device manager, in
  64-bit arithmetic.
- **Image files** (`fletcher.dfy`, `infoblock.dfy`, `extents.dfy`, `imagefile.dfy`): checksum and info block, extents,
  sparse copy, final layout and the search for the largest file.
- **Operator** (`operator.dfy`, `operator_convergence.dfy`): reconciling the objects of several deployments in one
  API server.

`dafny verify dfyconfig.toml` checks everything.

## Assumptions

- `CreateDevice` and `DeleteDevice` are all-or-nothing in the life cycle, refuse an existing device and never make one
  that is too small. Devices, filesystems and mounts outlive the driver process.
- Different volume names get different IDs. `VolumeRuns.NoLeakIffIdsAreInjective` shows that this is exactly what is
  needed.
- A state manager is configured. In the runs of the life cycle, listing devices and reading entries succeeds at a
  restart; `Recovery.SafeIffNothingIsLost` says what this is needed for. State files are written synchronously, so only
  directory changes need a sync.
- Persistent and ephemeral volumes have different names, and the IDs that callers choose for ephemeral volumes do not look
  like generated ones. Volume IDs contain no path separator.
- The keyed mutexes exclude calls with the same key. That they hash keys, and so exclude some more, is not used.
- Requested sizes are not negative.
- mkfs and parted keep the size of the file that they work on; parted writes nothing behind the first sector.
- The raw size of a new namespace is the size that was asked for after alignment, and lvcreate allocates what is asked for.
- The API server stores what it is given.

Where the documentation of a function and its code differ, the code is modelled: the size given to `imagefile.Create`
need not be a multiple of 2 MiB, and the largest-file search stays below, not at, 64 blocks more than necessary.

## Model

| member | source | states |
|---|---|---|
| VolumeLifecycle.OneEngagedCall | pkg/pmem-csi-driver/controllerserver-node.go:168-365 | at most one call that passed its lookups works on a volume, although create locks names and delete locks IDs |
| VolumeLifecycle.StepKeepsInv | pkg/pmem-csi-driver/controllerserver-node.go:73-369 | each atomic step of any call, crash, power loss, write-back or recovery keeps the invariant of the three stores |
| VolumeRuns.RunKeepsInv | pkg/pmem-csi-driver/controllerserver-node.go:73-369 | and so does every run |
| VolumeRuns.NoRunLeaksADevice | pkg/pmem-csi-driver/controllerserver-node.go:255-309 | in every run each device has a visible and a durable entry with its mode and no more than its size, and no volume has two devices |
| VolumeRuns.NoRunMixesCreateAndDelete | pkg/pmem-csi-driver/controllerserver-node.go:168-365 | no run has a create past its lookups and a delete past its lookup on one volume; the volume list keeps them apart, not the locks |
| VolumeRuns.RepliesAreStable | pkg/pmem-csi-driver/controllerserver-node.go:224-309 | every successful reply in any run names the one ID of that name and covers the request |
| VolumeRuns.CleanupKeepsBackedEntries | pkg/pmem-csi-driver/controllerserver-node.go:73-137 | recovery lists exactly the backed entries and its cleanup removes only entries without device, whatever fails |
| VolumeRuns.InterruptedRecoveryIsRepeatable | pkg/pmem-csi-driver/controllerserver-node.go:73-137 | recovery cut off in its cleanup loop and started again lists the same volumes |
| VolumeRuns.SmoothCreateSucceeds | pkg/pmem-csi-driver/controllerserver-node.go:210-309 | without other failures and competitors a create succeeds if and only if the volume is listed and large enough, or it is not listed and no temporary file of its ID was left behind; then its device covers the reply |
| VolumeRuns.CrashLeavesEnough | pkg/pmem-csi-driver/controllerserver-node.go:255-309 | whatever a crash leaves of a create is no volume or one that covers the request |
| VolumeRuns.RestartLists | pkg/pmem-csi-driver/controllerserver-node.go:73-137 | after a complete restart exactly the backed entries are listed; leftover temporary files stay |
| VolumeRuns.RetryAfterCrash | pkg/pmem-csi-driver/controllerserver-node.go:210-309 | a create cut off anywhere after its lookup by name, followed by restart and retry, succeeds if and only if the volume is backed after the restart or no temporary file of its ID was left; then with the same ID, enough size and a device that covers it |
| VolumeRuns.CrashWhileWritingBlocks | pkg/pmem-state/pmem-state.go:60-88 | for every name, size and mode: on a node without volumes, a crash while the entry is being written makes the retried create fail |
| VolumeRuns.LeftoverBlocksForever | pkg/pmem-state/pmem-state.go:60-88 | such a volume is never created again in any run without power loss |
| VolumeRuns.ListedReplyIsBackedUnlessDeleting | pkg/pmem-csi-driver/controllerserver-node.go:224-237 | the reply for a listed volume promises a device if and only if no delete is between removing it and forgetting the volume |
| VolumeRuns.ReplyWithoutDevice | pkg/pmem-csi-driver/controllerserver-node.go:224-237 | such a reply without device is possible for every listed volume |
| VolumeRuns.CollidingNamesLeak | pkg/pmem-csi-driver/controllerserver-node.go:245-278 | looking for a colliding ID first does not prevent a leak: two overlapping creates whose names share an ID can leave a device without entry |
| VolumeRuns.NoLeakIffIdsAreInjective | pkg/pmem-csi-driver/controllerserver-node.go:521-544 | no run leaks a device if and only if different names get different IDs |
| VolumeRuns.IdsCollideExactlyWithHash | pkg/pmem-csi-driver/controllerserver-node.go:521-544 | IDs collide exactly for names with the same hash and the same first characters |
| NodeControllers.LookupRuns | pkg/pmem-csi-driver/controllerserver-node.go:224-253 | the lookups find the volume of that name, or neither its name nor its ID |
| NodeControllers.MakeRuns | pkg/pmem-csi-driver/controllerserver-node.go:255-309 | for every choice of failures the rest of a create is a run of the life cycle |
| NodeControllers.DeleteRuns | pkg/pmem-csi-driver/controllerserver-node.go:326-369 | for every choice of failures a delete is a run of the life cycle |
| NodeControllers.CreateIsRecorded | pkg/pmem-csi-driver/controllerserver-node.go:255-309 | a successful create of a new volume adds it to list, devices and entries with one size, durably unless storing the real size failed; a failed one adds no volume and no device, and no entry if writing and removing it work |
| NodeControllers.DeleteIsComplete | pkg/pmem-csi-driver/controllerserver-node.go:326-369 | a successful delete removes exactly this volume, its device and, durably, its entry; a failed one changes nothing |
| NodeControllers.DeleteUndoesCreate | pkg/pmem-csi-driver/controllerserver-node.go:210-369 | deleting what was just created leads back to the node before, without any entry of that ID |
| NodeControllers.NodeController.NewNodeControllerServer | pkg/pmem-csi-driver/controllerserver-node.go:56-140 | for every combination of failing questions and removals: which entries are listed and which are removed; if nothing is lost the list is exactly the backed entries and the invariant holds, and with all answers the whole is one run of the life cycle that removes only entries without device |
| NodeControllers.NodeController.SortOut | pkg/pmem-csi-driver/controllerserver-node.go:84-128 | the first loop splits the entries that it can read into those whose device it sees under their mode and the others |
| NodeControllers.NodeController.CleanUp | pkg/pmem-csi-driver/controllerserver-node.go:130-135 | the second loop removes them one by one, with whatever removals fail |
| Recovery.NothingLostKeepsInv | pkg/pmem-csi-driver/controllerserver-node.go:73-137 | as long as every backed entry is read and seen, failing questions do no harm |
| Recovery.UnreadEntriesStay | pkg/pmem-csi-driver/controllerserver-node.go:84-101 | an entry about which nothing is learned is neither listed nor removed |
| Recovery.FullRecovery | pkg/pmem-csi-driver/controllerserver-node.go:73-137 | the two loops together are one run of the life cycle |
| Recovery.UnlistedVolumeLeaks | pkg/pmem-csi-driver/controllerserver-node.go:255-278 | a create for a volume that exists but is not listed removes the entry of its device |
| Recovery.SafeIffNothingIsLost | pkg/pmem-csi-driver/controllerserver-node.go:73-137 | after recovery no run leaks a device if and only if recovery read every entry whose device exists and could list the devices if one of them is of the current mode |
| NodeControllers.NodeController.GetVolumeByName | pkg/pmem-csi-driver/controllerserver-node.go:502-511 | finds a volume of that name if there is one, in whatever order the map is visited |
| NodeControllers.NodeController.StoreEntry | pkg/pmem-state/pmem-state.go:60-88 | writing an entry is a step of the life cycle and succeeds only without leftover temporary file |
| NodeControllers.NodeController.CreateVolumeInternal | pkg/pmem-csi-driver/controllerserver-node.go:210-309 | keeps the invariant and is one run of the life cycle that ends with its reply; a successful one names the ID of the name and covers the request |
| NodeControllers.NodeController.MakeVolume | pkg/pmem-csi-driver/controllerserver-node.go:255-309 | entry first, then device, then real size, volume list last, with rollback of the entry |
| NodeControllers.NodeController.DeleteVolume | pkg/pmem-csi-driver/controllerserver-node.go:311-369 | keeps the invariant and is one run of the life cycle; success means no volume and no device under that ID, failure means no change |
| NodeControllers.NodeController.RemoveVolume | pkg/pmem-csi-driver/controllerserver-node.go:343-365 | device first, then entry, volume list last |
| StateFiles.FileNamesApart | pkg/pmem-state/pmem-state.go:60-88 | different IDs use different files and no temporary file looks like an entry |
| StateFiles.CreateIsCrashAtomic | pkg/pmem-state/pmem-state.go:60-88 | at every point of Create a crash or power loss leaves each entry as a complete old version or, for this ID, the complete new one |
| StateFiles.DeleteIsCrashAtomic | pkg/pmem-state/pmem-state.go:91-102 | the same for Delete, where the new version is none |
| StateFiles.EntriesStayWhole | pkg/pmem-state/pmem-state.go:60-102 | no entry that can be left by a crash is torn |
| StateFiles.SyncedIsLeft | pkg/pmem-state/pmem-state.go:160-175 | after a sync a power loss leaves exactly the current directory |
| StateFiles.FileState.Create | pkg/pmem-state/pmem-state.go:60-88 | goes through exactly those directory versions, succeeds exactly without fault and leftover temporary file, and a successful one is durable |
| StateFiles.LeftoverExactly | pkg/pmem-state/pmem-state.go:60-88 | cut off at any point or ended, Create leaves its temporary file exactly from the open up to the rename or when closing or renaming failed, and then any later Create does nothing |
| StateFiles.FileState.Delete | pkg/pmem-state/pmem-state.go:91-102 | removes the entry durably when it succeeds; a missing entry is an error |
| StateFiles.FileState.SyncStateDir | pkg/pmem-state/pmem-state.go:160-175 | leaves the current version as the only one that a power loss can pick |
| StateFiles.FileState.GetAll | pkg/pmem-state/pmem-state.go:109-128 | lists the IDs of the entry files in directory order |
| StateFiles.EntryIdsExact | pkg/pmem-state/pmem-state.go:109-128 | an ID is listed if and only if its entry file exists, so temporary files never are |
| StateFiles.EntryIdsDistinct | pkg/pmem-state/pmem-state.go:109-128 | no ID is listed twice |
| Persistence.WritebackIsExact | pkg/pmem-state/pmem-state.go:60-175 | picking any version per entry at a power loss is the same as write-backs at any time followed by keeping what is durable |
| Persistence.LeftEntriesAreDurable | pkg/pmem-state/pmem-state.go:60-175 | so every directory that a power loss may leave is one that the life cycle covers |
| Persistence.CreateIsPutEntry | pkg/pmem-state/pmem-state.go:60-88 | Create is the write of the life cycle: success, failure after the rename or failure before it, with or without leftover file, have the same effect in both |
| Persistence.CutCreateIsCrash | pkg/pmem-state/pmem-state.go:67-84 | cut off between open and rename it is the crash of the life cycle in the middle of a write |
| Persistence.DeleteIsDropEntry | pkg/pmem-state/pmem-state.go:91-102 | Delete is the removal of the life cycle in the same way |
| EphemeralVolumes.FindMountFlags | pkg/pmem-csi-driver/nodeserver.go:846-869 | true if and only if every flag but bind is among the options, with both spellings of dax taken as one |
| EphemeralVolumes.MountFlagsAreRight | pkg/pmem-csi-driver/nodeserver.go:188-214 | the flags of a mount are those of the request, dax for app direct use and ro for a read-only volume, and no others |
| EphemeralVolumes.CompatibleExactly | pkg/pmem-csi-driver/nodeserver.go:237-258 | an existing mount is accepted exactly when it has the requested filesystem type, if any, and lists every flag but bind, in either spelling of dax |
| EphemeralVolumes.NodeServer.ProvisionDevice | pkg/pmem-csi-driver/nodeserver.go:688-732 | formats an unformatted device with a supported filesystem, accepts the same filesystem, refuses another one and does nothing when it cannot tell |
| EphemeralVolumes.NodeServer.MountTarget | pkg/pmem-csi-driver/nodeserver.go:228-285 | mounts this device with the requested filesystem and flags, or accepts a suitable mount and refuses any other |
| EphemeralVolumes.NodeServer.Attach | pkg/pmem-csi-driver/nodeserver.go:180-292 | looks the device up under the current mode, formats and mounts it; success means that it exists, has the requested filesystem and is what is mounted, and each failure leaves what was done before it |
| EphemeralVolumes.AttachSucceedsIff | pkg/pmem-csi-driver/nodeserver.go:180-292 | exactly when this part of a publish succeeds, in terms of what is there, what is asked for and what fails |
| EphemeralVolumes.UnsuitableIsRefused | pkg/pmem-csi-driver/nodeserver.go:228-261 | a target with an unsuitable mount is refused and stays as it is |
| EphemeralVolumes.FailedMountLeavesTarget | pkg/pmem-csi-driver/nodeserver.go:734-768 | a failed mount leaves the target directory behind and no mount |
| EphemeralVolumes.NodeServer.NodePublishVolume | pkg/pmem-csi-driver/nodeserver.go:173-292 | keeps the invariant of the node; success means that the device of this very volume has the requested filesystem and, unless a suitable mount was there, is mounted at the target with the requested flags |
| EphemeralVolumes.NodeServer.FindVolume | pkg/pmem-csi-driver/nodeserver.go:381-385 | finds the volume by ID first and then by name |
| EphemeralVolumes.TargetExactly | pkg/pmem-csi-driver/nodeserver.go:381-385 | the volume is the listed one with that ID or, if there is none, with that name |
| EphemeralVolumes.NodeServer.Detach | pkg/pmem-csi-driver/nodeserver.go:431-450 | unmounts if mounted, then removes the directory if it is there |
| EphemeralVolumes.NodeServer.NodeUnpublishVolume | pkg/pmem-csi-driver/nodeserver.go:360-459 | keeps the invariant; an unknown volume is fine unless the target is mounted, a known one is detached and deleted |
| EphemeralRuns.CallElsewhere | pkg/pmem-csi-driver/controllerserver-node.go:210-369 | any part of one call changes only its own volume in each of the stores |
| EphemeralRuns.HistoryKeeps | pkg/pmem-csi-driver/nodeserver.go:173-458 | along any history of publish and unpublish calls, complete or cut off anywhere by a crash, everything but this volume and target stays the same, a target in use has its device, and whatever is mounted there is the filesystem on the device of this volume |
| EphemeralRuns.UnpublishRestores | pkg/pmem-csi-driver/nodeserver.go:380-458 | after any such history a successful unpublish restores devices, filesystems, mounts, directories and volume list, it does succeed when nothing fails, and repeating it succeeds without any change whatever fails |
| EphemeralRuns.UnknownVolumeStays | pkg/pmem-csi-driver/nodeserver.go:402-425 | without a listed volume of that ID or name an unpublish changes nothing and fails exactly when it finds the target mounted |
| EphemeralRuns.PublishMounts | pkg/pmem-csi-driver/nodeserver.go:173-292 | after a successful publish the device of the volume exists in the mode of the driver, is large enough, has the requested filesystem and, unless a suitable mount was there, is what is mounted at the target; no other mount changes |
| EphemeralRuns.PublishIsIdempotent | pkg/pmem-csi-driver/nodeserver.go:173-292 | repeating a successful publish changes nothing, whatever fails; if it can find out what is there, it succeeds if and only if the target was mounted before the first request or the kernel lists all flags of the new mount |
| EphemeralRuns.UnlistedFlagFailsTheSecondTime | pkg/pmem-csi-driver/nodeserver.go:228-258 | so on every node a request with a flag that the kernel does not list succeeds the first time and fails the second time |
| EphemeralRuns.PublishAfterRestart | pkg/pmem-csi-driver/nodeserver.go:654-684 | across a restart it changes nothing either and succeeds if and only if, in addition, the driver runs in the mode of the volume and the persisted size covers the request |
| Parameters.ClassifyIsLossless | pkg/pmem-csi-driver/parameters/parameters.go:19-60 | speaking of keys instead of strings loses nothing |
| Parameters.Parse | pkg/pmem-csi-driver/parameters/parameters.go:131-236 | in whatever order the map is visited: fails exactly when some entry does not pass on its own or the result lacks a required size or combines Kata Containers with file I/O, otherwise each field comes from its key |
| Parameters.ParseIsDeterminate | pkg/pmem-csi-driver/parameters/parameters.go:131-236 | the order never decides between success and failure, and the result depends on it only in the persistency when both of its keys are given |
| Parameters.ParseAcceptsExactly | pkg/pmem-csi-driver/parameters/parameters.go:62-236 | accepts a map if and only if this origin may set each of its keys, by their text, to its value, the size of an ephemeral volume is given and Kata Containers are not combined with file I/O |
| Parameters.ParseMeans | pkg/pmem-csi-driver/parameters/parameters.go:131-236 | what each setting of an accepted map is, by the texts in it |
| Parameters.RecordRoundTrip | pkg/pmem-csi-driver/parameters/parameters.go:131-267 | a stored record parses back to the same settings exactly when they do not ask for Kata Containers together with file I/O |
| Parameters.ContextRoundTrip | pkg/pmem-csi-driver/parameters/parameters.go:62-267 | a volume context with what Kubernetes adds is accepted with the same values exactly when size, mode and ephemeral persistency are not set and Kata Containers are not combined with file I/O |
| Parameters.FormatIntIsDecimal | pkg/pmem-csi-driver/parameters/parameters.go:252-254 | a size is written as its decimal number |
| Parameters.PersistentParametersSurvive | pkg/pmem-csi-driver/controllerserver-node.go:163-192 | what CreateVolume parsed is accepted by staging and publishing and recorded faithfully, so the errors that should never happen do not |
| Parameters.EphemeralParametersSurvive | pkg/pmem-csi-driver/nodeserver.go:174-184 | the same for ephemeral volumes and the record that unpublishing reads |
| Alignment.ComputeGcd | pkg/math/math.go:14-21 | Euclid's loop computes the recursive definition |
| Alignment.Bezout | pkg/math/math.go:14-21 | the result is a linear combination of the arguments |
| Alignment.GcdIsGreatest | pkg/math/math.go:14-21 | it divides both arguments and every common divisor divides it |
| Alignment.LcmIsLeast | pkg/math/math.go:24-26 | when the product fits 64 bits, LCM is a positive common multiple that divides every other one |
| Alignment.LcmExactIffProductFits | pkg/math/math.go:24-26 | LCM times GCD is the product if and only if it fits 64 bits |
| Alignment.AlignmentIsLeast | pkg/ndctl/region.go:382-395 | a size meets both alignments of a region if and only if CalculateAlignment divides it |
| Alignment.NamespaceSizeIsLeast | pkg/ndctl/region.go:200-213 | CreateNamespace chooses the smallest positive size that meets both alignments and the request, exactly when it fits 64 bits |
| Capacity.LvmActualIsUp | pkg/pmem-device-manager/pmd-lvm.go:156-160 | LVM rounds like CreateNamespace, except that sizes near the largest integer become one unit |
| Capacity.FitsIffBelowFree | pkg/pmem-device-manager/pmd-ndctl.go:117-143 | one region: a positive size fits exactly when it is at most the free extent rounded down |
| Capacity.FooledIffWraps | pkg/ndctl/region.go:206-225 | one region: a size above what it reports passes the check of free space exactly when it is above the largest multiple of the unit that fits 64 bits and the multiple after that wraps around to something free |
| Capacity.DirectMaxVolumeSize | pkg/pmem-device-manager/pmd-ndctl.go:105-147 | reports the largest rounded-down extent, zero without any |
| Capacity.LvmMaxVolumeSize | pkg/pmem-device-manager/pmd-lvm.go:123-127 | comparing unrounded free space with the rounded maximum gives the same |
| Capacity.DirectMaxIsExactUnlessFooled | pkg/pmem-device-manager/pmd-ndctl.go:117-143 | a positive size is accepted by some region if and only if it is at most the reported maximum, or its rounding wraps around in some region as just described |
| Capacity.HugeRequestFools | pkg/ndctl/region.go:206-225 | and such sizes exist for every region whose unit is a power of two |
| Capacity.LvmMaxIsExactUnlessWrapping | pkg/pmem-device-manager/pmd-lvm.go:156-170 | the same in LVM mode exactly for sizes that leave room for rounding, or when nothing is free |
| Capacity.FirstFit | pkg/pmem-device-manager/pmd-lvm.go:168-170 | the first volume group with enough space, none exactly when there is none |
| Capacity.FirstRegion | pkg/ndctl/ndctl.go:74-86 | the first region, bus by bus, that accepts the request |
| NamespaceBudget.Subtract | pkg/pmem-device-manager/pmd-lvm.go:339-356 | the loop with its early exit computes what is left of the budget, never less than zero |
| NamespaceBudget.SetupNS | pkg/pmem-device-manager/pmd-lvm.go:328-391 | what one start creates and whether it succeeds, with all limits |
| NamespaceBudget.BudgetIsShare | pkg/pmem-device-manager/pmd-lvm.go:330 | the budget is never more than the percentage of the size, and is that percentage rounded down exactly when the product fits 64 bits |
| NamespaceBudget.WholeBudget | pkg/pmem-device-manager/pmd-lvm.go:330 | all of it for one hundred percent |
| NamespaceBudget.RequestIsLargest | pkg/pmem-device-manager/pmd-lvm.go:339-366 | a start asks for the largest amount within what is left of the budget, the available space and the largest extent |
| NamespaceBudget.OthersDoNotCount | pkg/pmem-device-manager/pmd-lvm.go:339-356 | namespaces under another name make no difference |
| NamespaceBudget.StartAddsLeast | pkg/pmem-device-manager/pmd-lvm.go:367-378 | what a start adds is one namespace of its own, aligned, at least as large as anything it may ask for and less than a unit above each limit |
| NamespaceBudget.FirstStartTakesShare | pkg/pmem-device-manager/pmd-lvm.go:328-378 | on a region with an aligned extent that is large enough, the first start makes the driver own its percentage of the size, rounded down, and less than a unit more |
| NamespaceBudget.OwnedStaysInBudget | pkg/pmem-device-manager/pmd-lvm.go:328-378 | over any number of starts, and whatever others do, the driver owns at most what it had or its budget plus alignment minus one |
| NamespaceBudget.OwnedStaysInShare | pkg/pmem-device-manager/pmd-lvm.go:328-378 | over any history it owns no more than it had, or than its percentage of the region and less than a unit |
| NamespaceBudget.BudgetLimitedStartIsFinal | pkg/pmem-device-manager/pmd-lvm.go:328-378 | a start limited by the budget leaves nothing for the next one, exactly when rounding did not wrap around |
| NamespaceBudget.NothingForZeroPercent | pkg/pmem-device-manager/pmd-lvm.go:328-378 | a percentage of zero creates nothing in any number of starts |
| NamespaceBudget.ExtentLimitedStart | pkg/pmem-device-manager/pmd-lvm.go:367-378 | a start limited by the largest extent fails exactly when that extent is not aligned and its rounding does not wrap around |
| DeviceManagers.Place | pkg/pmem-device-manager/pmd-lvm.go:168-195 | the first group that accepts the volume, none exactly when no group does |
| DeviceManagers.LvmManager.CreateDevice | pkg/pmem-device-manager/pmd-lvm.go:138-196 | refuses a cached device, fails without change when vgs fails, otherwise takes the first group that accepts, and updates the cache last |
| DeviceManagers.LvmManager.DeleteDevice | pkg/pmem-device-manager/pmd-lvm.go:198-230 | success means that the device is not cached any more and, if the cache was exact, that its volume is gone and its space is free again while all else stays; a failure changes nothing |
| DeviceManagers.DeletedIsGone | pkg/pmem-device-manager/pmd-lvm.go:198-230 | with an exact cache, deleting succeeds if and only if there is no such device or lvremove works; then no group has a volume of that name, exactly its size is free again and all other volumes stay |
| DeviceManagers.DeletedIsNotCached | pkg/pmem-device-manager/pmd-lvm.go:198-230 | with any cache, a deleted device is not cached any more and all others still are |
| DeviceManagers.CreatedIsThere | pkg/pmem-device-manager/pmd-lvm.go:138-196 | creating succeeds if and only if the device is new, some group accepts it and nothing fails; then the volume, its cache entry and the space taken are those of the rounded size and nothing else changes |
| DeviceManagers.DeleteUndoesCreate | pkg/pmem-device-manager/pmd-lvm.go:138-230 | deleting what was just created restores groups, volumes and cache |
| DeviceManagers.CreateAfterDelete | pkg/pmem-device-manager/pmd-lvm.go:138-230 | a deleted device can be created again with the same size |
| DeviceManagers.PerformConserves | pkg/pmem-device-manager/pmd-lvm.go:138-230 | every operation, even a late failure, keeps free space plus volumes equal to the size of each group |
| DeviceManagers.CacheStaysExactUnlessLate | pkg/pmem-device-manager/pmd-lvm.go:138-230 | an operation breaks the equality of the cache and the real volumes if and only if it creates a volume that is not cached, some group accepts it, and something fails after lvcreate |
| DeviceManagers.CacheAndSpaceStayExact | pkg/pmem-device-manager/pmd-lvm.go:92-230 | so in every run without such a failure both hold |
| DeviceManagers.RetryAfterLateFailure | pkg/pmem-device-manager/pmd-lvm.go:174-187 | after such a failure a retry succeeds exactly when a later group has room, and then the name exists twice |
| DeviceManagers.FakeManager.NewFake | pkg/pmem-device-manager/pmd-fake.go:35-44 | an error exactly above 100 percent, otherwise an empty manager with that percentage of one terabyte |
| DeviceManagers.FakeManager.GetCapacity | pkg/pmem-device-manager/pmd-fake.go:57-68 | subtracting the sizes in any order never underflows and gives capacity minus their sum |
| DeviceManagers.FakeManager.CreateDevice | pkg/pmem-device-manager/pmd-fake.go:70-89 | succeeds exactly for a new device that still fits and keeps the sum within the capacity |
| DeviceManagers.FakeManager.DeleteDevice | pkg/pmem-device-manager/pmd-fake.go:91-99 | gives back exactly the size of the device, if there was one |
| Fletcher.Fletcher64 | pkg/imagefile/imagefile.go:115-128 | the accumulator loop computes plain and weighted sum modulo 2^32 |
| Fletcher.ChecksumIsFletcher | pkg/imagefile/imagefile.go:115-128 | the sum of nothing is zero, and one more word is added to the lower half, whose new value is added to the upper half |
| Fletcher.SingleWordChangeIsDetected | pkg/imagefile/imagefile.go:115-128 | every change of one word changes the checksum |
| Fletcher.SwapIsMissedIff | pkg/imagefile/imagefile.go:115-128 | exchanging two words is missed if and only if distance times difference vanishes modulo 2^32 |
| Fletcher.AdjacentSwapIsDetected | pkg/imagefile/imagefile.go:115-128 | exchanging two different adjacent words is always detected |
| Fletcher.DistantSwapIsMissed | pkg/imagefile/imagefile.go:115-128 | some exchanges within one info block are not |
| InfoBlocks.NdSbChecksum | pkg/imagefile/imagefile.go:136-146 | computes the checksum with its own field as zero and leaves the block as it was |
| InfoBlocks.Nsdax | pkg/imagefile/imagefile.go:148-161 | fills the buffer in place with the block that the next three results are about |
| InfoBlocks.NsdaxVerifies | pkg/imagefile/imagefile.go:148-161 | the block passes the checksum test of the kernel |
| InfoBlocks.InfoBlockLayout | pkg/imagefile/imagefile.go:84-108 | signature text, version, data offset, mode and alignment can be read where the widths of the fields of struct nd_pfn_sb put them, and all fields that are not set are zero |
| InfoBlocks.DamagedWordIsDetected | pkg/imagefile/imagefile.go:136-161 | changing any one word of a valid block, including its checksum, makes it fail the test |
| Extents.FibmapExtents | third-party/go-fibmap/fibmap.go:91-155 | the loop computes byte ranges that are sorted, disjoint and right about every byte of the block map as it sees it: a failed call leaves the index of the block, and only the error of the last one is returned |
| Extents.EncodeIsLossless | third-party/go-fibmap/fibmap.go:91-155 | expanding the extents gives back every block and nothing else |
| Extents.RightIffFailuresAreHarmless | third-party/go-fibmap/fibmap.go:111-115 | with failed calls the extents still describe the file if and only if those blocks are where their index says |
| Extents.EncodeIsCanonical | third-party/go-fibmap/fibmap.go:91-155 | they are sorted, disjoint and maximal |
| Extents.ScaledDescribes | third-party/go-fibmap/fibmap.go:91-155 | in bytes: a byte is covered if and only if its block is mapped, and then every extent that has it says where it is on the disk |
| Extents.CanonicalIsUnique | third-party/go-fibmap/fibmap.go:91-155 | no other sorted, disjoint and maximal list describes the same blocks |
| Extents.SeekDataHole | third-party/go-fibmap/fibmap.go:181-205 | ends for every file and lists exactly its data ranges, with a hole between any two, also for files without data |
| Extents.DataExtents | pkg/imagefile/imagefile.go:539-546 | the fallback of getAllExtents covers exactly the data |
| ImageFiles.LargestFile | pkg/imagefile/imagefile.go:340-384 | computes the search below and returns the size that it found |
| ImageFiles.FoundSizeFits | pkg/imagefile/imagefile.go:357-384 | whatever is found fits and is a positive multiple of 2 MiB |
| ImageFiles.SearchEndsAtFirst | pkg/imagefile/imagefile.go:357-384 | the search ends at the first size that is not just a matter of space, successfully if that size fits |
| ImageFiles.SearchIsNearlyOptimal | pkg/imagefile/imagefile.go:357-384 | if smaller files fit whenever larger ones do, the overhead found is less than 64 blocks above any feasible one, and nothing is found only within 64 blocks of the free space |
| ImageFiles.CopyRange | pkg/imagefile/imagefile.go:478-511 | copies exactly the range, chunk by chunk; fails exactly for a range beyond the end, while a negative size copies nothing |
| ImageFiles.Dd | pkg/imagefile/imagefile.go:432-474 | never fails for extents that stretch beyond or start behind the end; covered bytes come from the source, others stay |
| ImageFiles.SparseIsFullIff | pkg/imagefile/imagefile.go:432-474 | sparse and full copy agree if and only if the target already holds what the extents leave out |
| ImageFiles.SparseRefinesFull | pkg/imagefile/imagefile.go:432-474 | which is so for a zeroed range and extents that leave out nothing but zeros |
| ImageFiles.OneExtentIsFull | pkg/imagefile/imagefile.go:445-448 | without sparse mode everything is copied |
| ImageFiles.DataExtentsCover | pkg/imagefile/imagefile.go:539-546 | extents found by seeking leave out nothing but zeros |
| ImageFiles.LayersInPlace | pkg/imagefile/imagefile.go:300-311 | boot record, info block and filesystem written in this order each end up in their place |
| ImageFiles.InfoPointsAtFilesystem | pkg/imagefile/imagefile.go:300-311 | the info block passes the test of the kernel and points to where the filesystem is, with its alignment |
| ImageFiles.ChosenIsAsked | pkg/imagefile/imagefile.go:227-244 | a size that was asked for is taken or refused, never changed |
| ImageFiles.Fill | pkg/imagefile/imagefile.go:300-320 | the finished image has boot record, info block at 4 KiB and filesystem at 2 MiB, nothing overwrites anything else and all else is zero, including the padding to a multiple of 2 MiB |
| ImageFiles.Create | pkg/imagefile/imagefile.go:227-338 | fails exactly for a size that is too small or not available or for which parted or mkfs fails, otherwise the layout is complete |
| Operator.WishesAreDistinct | pkg/pmem-csi-operator/controller/deployment/controller_driver.go:352-622 | different kinds or suffixes make different objects, in the scope of the operator |
| Operator.SharedExactly | pkg/apis/pmemcsi/v1beta1/deployment_types.go:470-482 | two deployments share the object of a handler exactly when their names agree up to dots and hyphens, or entirely for the CSIDriver object, in one namespace or for a kind without |
| Operator.EveryManagedKind | pkg/pmem-csi-operator/controller/deployment/controller_driver.go:108-140 | every kind that is or was managed is looked at when obsolete objects are removed |
| Operator.TableIsDistinct | pkg/pmem-csi-operator/controller/deployment/controller_driver.go:352-622 | so the handlers of the operator, any of its 18 in any order, ask for different objects of known kinds in its scope |
| Operator.JoinMaps | pkg/pmem-csi-operator/controller/deployment/controller_driver.go:1608-1617 | the second map wins, in whatever order the maps are visited |
| Operator.SetTolerations | pkg/pmem-csi-operator/controller/deployment/controller_driver.go:1619-1636 | appends the effects that are missing |
| Operator.DesiredIsExact | pkg/pmem-csi-operator/controller/deployment/controller_driver.go:273-287 | what a deployment makes of an object has every field, toleration and label that it asks for, and everything else is as it was |
| Operator.NothingToDoIffCarried | pkg/pmem-csi-operator/controller/deployment/controller_driver.go:273-296 | there is nothing to write if and only if the object has all of that already |
| Operator.DesiredIsIdempotent | pkg/pmem-csi-operator/controller/deployment/controller_driver.go:273-287 | setting everything that a deployment cares about twice is the same as once |
| Operator.OthersAreLeftAlone | pkg/pmem-csi-operator/controller/deployment/controller_driver.go:205-226 | over any sequence of writes by several deployments, cut off anywhere, an object that none of them owns is not patched, re-created or removed |
| Operator.OwnersStay | pkg/pmem-csi-operator/controller/deployment/controller_driver.go:246-350 | as long as an object is not removed its owners stay |
| Operator.Reconciler.IsOwnedBy | pkg/pmem-csi-operator/controller/deployment/deployment_controller.go:477-486 | true if and only if the UID is among the owners |
| Operator.Reconciler.Modify | pkg/pmem-csi-operator/controller/deployment/controller_driver.go:273-287 | sets every field, toleration and label that is asked for and leaves everything else |
| Operator.Reconciler.Submit | pkg/pmem-csi-operator/controller/deployment/controller_driver.go:289-340 | writes nothing if nothing changed, otherwise exactly one patch or create, or a removal and a create for an immutable object |
| Operator.Reconciler.Redeploy | pkg/pmem-csi-operator/controller/deployment/controller_driver.go:246-350 | brings one object to have all that is asked for, with everything else as it was or newly made, by allowed writes only; makes none if it has all of that or belongs to somebody else |
| Operator.Reconciler.RedeployAll | pkg/pmem-csi-operator/controller/deployment/controller_driver.go:172-185 | does so for all handlers, succeeding only without conflict |
| Operator.Reconciler.IsObsolete | pkg/pmem-csi-operator/controller/deployment/controller_driver.go:656-671 | true if and only if no wanted object has the same kind and name |
| Operator.Reconciler.DeleteObsoleteObjects | pkg/pmem-csi-operator/controller/deployment/controller_driver.go:683-721 | removes exactly the objects in scope that the deployment owns and that no handler wants |
| Operator.Reconciler.Reconcile | pkg/pmem-csi-operator/controller/deployment/controller_driver.go:168-201 | makes allowed writes only; after a success every handler has its object with all that it asks for and otherwise as it was; succeeds exactly without conflict when no call fails, and writes nothing once converged |
| Operator.Reconciler.HandleEvent | pkg/pmem-csi-operator/controller/deployment/controller_driver.go:624-654 | redeploys the object of the event if some handler wants it, by allowed writes only; when no call fails it succeeds if and only if that object does not belong to somebody else, and otherwise writes nothing |
| OperatorConvergence.GoalHas | pkg/pmem-csi-operator/controller/deployment/controller_driver.go:246-350 | after a reconcile each handler has its object with all that it asks for, and what was there besides is unchanged; a new object has nothing else |
| OperatorConvergence.GoalLeaves | pkg/pmem-csi-operator/controller/deployment/controller_driver.go:683-721 | everything else is as before except for what is obsolete |
| OperatorConvergence.ReconcileConverges | pkg/pmem-csi-operator/controller/deployment/controller_driver.go:168-201 | from any store without conflict the deployment then owns in its scope exactly the objects of its handlers, each with all that is asked for and otherwise as it was, with nothing left to do |
| OperatorConvergence.ReconcileDeploysTable | pkg/pmem-csi-operator/controller/deployment/controller_driver.go:168-622 | for the real table: every entry gets its own object of its kind with what its callback sets and the labels of the deployment, and only the CSIDriver object is replaced instead of patched |
| OperatorConvergence.ReconcileLeavesOthersAlone | pkg/pmem-csi-operator/controller/deployment/controller_driver.go:205-226 | nothing that it does not own has changed |
| OperatorConvergence.OrderDoesNotMatter | pkg/pmem-csi-operator/controller/deployment/controller_driver.go:172-185 | the result is the same for every order of the handlers |
| OperatorConvergence.SecondReconcileIsIdle | pkg/pmem-csi-operator/controller/deployment/controller_driver.go:168-201 | a second reconcile, in whatever order, finds nothing to write |
| OperatorConvergence.EventRepairs | pkg/pmem-csi-operator/controller/deployment/controller_driver.go:624-654 | whatever happened to one object of a converged deployment, handling the event makes every object have all that is asked for again if and only if the object was not taken away |
| OperatorConvergence.CollidingDeploymentIsRefused | pkg/apis/pmemcsi/v1beta1/deployment_types.go:470-488 | deployments whose names differ only in dots and hyphens want the same objects, and the second one is refused |

## Left out

- Partial device creation in the life cycle: after lvcreate a later failure makes the caller remove the entry of an existing volume. `DeviceManagers` shows what happens to the LVM cache then.
- Recovery.SafeIffNothingIsLost: is not about lost volumes whose temporary file was left behind as well, where the create that does the damage is blocked.
- VolumeRuns.LeftoverBlocksForever: stops at a power loss, because the model leaves open which temporary files that leaves.
- ListVolumes: pages follow the iteration order of a map and need not partition the volumes.
- CreateVolume and NodeStageVolume apart from their parameters: argument checks, topology and staging would only add easy members.
- NodePublishVolume for persistent volumes, raw block volumes and Kata Containers, and the heuristic that detects ephemeral volumes.
- EphemeralRuns.UnpublishRestores: is about crashes of the driver, not about power loss, which also takes the mounts away; a persisted entry without device may stay until the next restart.
- EphemeralVolumes.NodeServer.ProvisionDevice: takes an interrupted mkfs as having done nothing or everything; the output of file and blkid is not modelled.
- EphemeralVolumes.NodeServer.MountTarget: models at most one mount per target.
- Parameters.Parse: takes the parsing of Kubernetes quantities as given; all that is used is that it reads back plain integers of 64 bits.
- Regions that are read-only, of block type, or report the largest 64-bit number as their extent.
- ImageFiles.LargestFile: does not model the overflow of 64-bit integers for volumes of more than 2^63 bytes.
- Fiemap: what the kernel reports about a file is taken as given.
- ImageFiles.Create: the errors of opening, syncing, closing and removing files, and a full disk while writing.
- DeviceManagers.LvmManager.CreateDevice: waiting for and clearing the new device is one step that works or fails; getUncachedDevice and the text output of LVM commands are not modelled.
- Direct mode CreateDevice and DeleteDevice beyond the choice of region and size.
- Operator.DesiredIsIdempotent: the callbacks of all kinds are one merge of fields, so it says nothing about which fields each of them sets.
- Operator.Reconciler.Modify: the same merge of fields stands for the callback of every kind.
- Operator.Reconciler.Redeploy: objects are fields, tolerations, labels and owners; the contents that the callbacks of each kind set, the conditions and the status of a deployment are not modelled.
- The cache of deployments in the operator, the predicates that filter events, version comparison and defaults.
- The rescheduler, the scheduler extender, gRPC, TLS, metrics, logging, all of the command line and tests.
