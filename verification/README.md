# Ballast pools and CLI algorithms of `sbh`, modelled and verified in Dafny

`sbh` keeps *ballast*: numbered sacrificial files that can be deleted at once when a volume fills up.
This project models the code that creates, verifies, releases and replenishes those files, the
coordinator that keeps one pool per volume, and five self-contained algorithms of the command line
program, and proves what they promise for all inputs, all fault patterns and all runs.

`dafny verify dfyconfig.toml` checks everything.

## How the model is built

- **One slot at a time.** `Pool.VisitSlot` says what a pass does with one slot, given what was there and
  what the environment answers (`Pool.Fate`): whether the removal works, what the free-space check says
  when the volume has a given number of free bytes, how preallocation, header write and random write
  end, how many blocks were allocated, what a failed creation leaves behind. `Pool.FillFrom` chains the
  visits with the program's early exits, and `Writes` says what both do in terms of the answers alone.
  `Manager.BallastManager` is the object of the program; its
  loops are proved to do exactly that to the directory, the inventory and the report, and `Fleet.Perform`
  ties a call on the object to a step of the runs below.
- **Runs.** `Conservation` lets any number of managers, each with its own possibly stale inventory, act
  on one directory in any order; `Prefix` follows the live slots through such runs, and `Isolation` the
  pools of a coordinator through runs of its calls. `Releases` and `Bulk` say what single calls report.
- **Volumes.** `Mounts` resolves paths and plans the pools; `Coordinator.BallastPoolCoordinator` builds
  and drives them over a shared file system, visiting its maps in arbitrary order. `Coordinator.View`
  reads the pools as values, on which isolation and order independence are proved.
- **Command line.** `Blame`, `ShellCommand`, `TomlSet`, `JsonDiff` and `ByteCount` stand alone.

The JSON library is a parameter (`Header.Codec`): a writer and a partial reader, of which only
`Header.Lawful` is assumed (reading undoes writing; JSON text holds no NUL, section 7 of RFC 8259).
`Codecs.LawfulCodecExists` shows that the assumption can be met with headers that fit.

## Findings

- **A release can leave a gap.** `release` picks its files from the remembered inventory without
  rescanning, and goes on after a removal that fails (src/ballast/manager.rs:471-489). The live slots stay a
  prefix if and only if no slot that it can remove lies below a live one that stays
  (`Prefix.ReleaseKeepsPrefixIff`): one whose removal fails, even with a current inventory
  (`FailedRemovalLeavesGap`), or one the manager does not know of (`StaleReleaseLeavesGap`).
- **A creation error other than lack of space leaves a gap**, because the loop goes on to the next slot
  (src/ballast/manager.rs:447-451), and one whose cleanup fails too leaves a broken file in a slot
  (src/ballast/manager.rs:781-785). `Prefix.FillKeepsPrefixIff` gives the exact condition on the
  environment, `SoftFailureLeavesGap` and `FailedCleanupLeavesJunk` instances.
- **An orphan that could not be removed becomes a live slot again** when the count grows back
  (src/ballast/manager.rs:351-357); `Prefix.PruneKeepsPrefixIff` and `Prefix.ShrinkThenGrow` say exactly when that
  breaks the prefix, `SurvivorLeavesGap` is an instance. `Prefix.RunKeepsPrefixIff` puts the three conditions
  together over whole runs.
- **A release lowers the total by what it reports only if the remembered total was right**
  (src/ballast/manager.rs:471-498): `Views.ReleaseLowersInventoryIff`, and `Coordinator.ReleaseIsExactIff` for the
  total over all pools; `Views.StaleTotalDropsUnreported` is an instance where it was not. No byte is
  miscounted on disk: conservation holds for every inventory.
- **A pool can be created on the wrong volume**, in another pool's directory, when another mount sits on
  its `.sbh` or `.sbh/ballast`; `Mounts.PoolDirOnOwnVolume` and `Mounts.PoolDirsCollideIff` say exactly when,
  `Mounts.PoolOnWrongVolume` is an instance.
- **Long fractions are refused although their value fits**: 27 nines after the point, in TiB
  (`ByteCount.LongFractionIsRefused`); `ByteCount.ParseIsExact` gives the exact condition.
- **Printed diffs can be ambiguous**: with `{"a": {}}` the default, `{"a": {"b": null}}` and
  `{"a": {}, "a.b": null}` print the same line (`JsonDiff.PrintedDiffsCollide`). Two paths print alike exactly when
  they agree after dropping leading empty keys and splitting the rest at dots (`PrintAlikeIff`), two diffs when
  they do so line by line (`DiffsPrintAlikeIff`). When no key is empty or dotted, the printed lines determine the
  effective value (`PrintedDiffIsFaithful`).
- **A directory in a slot's place counts in the inventory but not in the plain view**
  (`Views.ViewsAgree` gives the exact condition for the counts, `Views.SpecialSlotDivides` an instance).
- **A slot that cannot be read makes the manager report the pool empty** where the plain view says it cannot
  tell (`Views.HealthAgreesIff` gives the exact condition, `Views.UnreadableSlotDivides` an instance).
- The documentation says all ballast operations are serialized by the lock file (README.md:1132). In the
  code, construction, `update_config` and `verify` do not take it; the model follows the code in that
  these never fail for want of the lock. Runs may also take them apart, other managers' calls coming
  between single removals (`Conservation.Event`); conservation and the prefix conditions cover that.

## Model

| member | source | states |
|---|---|---|
| SlotNames.ClaimedIndexOfSlotName | src/ballast/manager.rs:269-271 | the number part of a canonical file name parses back to its index, for every u32, past the five-digit padding |
| SlotNames.SlotNamesAreInjective | src/ballast/manager.rs:269-271 | different slots never share a file name |
| SlotNames.SlotNameIs | src/ballast/manager.rs:269-271 | the name is the prefix, the index in at least five digits with no further zeros in front, and `.dat` |
| SlotNames.ClaimedIndexIff | src/ballast/manager.rs:650-668 | a name claims an index exactly when it is prefix, parsable number, and `.dat` with each letter in either case |
| Decimal.ParsedIff | src/ballast/manager.rs:664-665 | a parsable number is digits, after a plus sign or not, worth less than the limit |
| Header.HeaderRoundTrip | src/ballast/manager.rs:857-871 | a header block is accepted for its own index and size and for no other, also when the JSON leaves no padding |
| Writes.IntactIff | src/ballast/manager.rs:707-769 | a slot verifies exactly when it is a regular file of the configured size that starts with a header of the right magic, index and size, with enough blocks allocated |
| Manager.BallastManager.constructor | src/ballast/manager.rs:295-313 | opens the directory, prunes, and inventories exactly what is there |
| Manager.WithPlatform | src/ballast/manager.rs:295-313 | the same as an attempt: nothing happens when the directory cannot be created |
| Manager.BallastManager.Provision | src/ballast/manager.rs:400-457 | the directory, report and inventory after the call are those of a full pass; without the lock nothing changes |
| Manager.BallastManager.ReplenishOne | src/ballast/manager.rs:568-625 | the same for a pass that stops after its first creation |
| Manager.BallastManager.Release | src/ballast/manager.rs:462-499 | deletes the remembered slots highest first, counting the size on disk only when the removal worked |
| Manager.BallastManager.UpdateConfig | src/ballast/manager.rs:351-357 | new configuration, pruned directory, fresh inventory |
| Manager.BallastManager.Verify | src/ballast/manager.rs:524-556 | counts partition the slots: ok are the intact ones, missing the absent ones, corrupted the rest; nothing changes |
| Manager.BallastManager.PruneOrphans | src/ballast/manager.rs:630-672 | in any directory order, removes exactly the orphans whose removal succeeds |
| Manager.BallastManager.ScanExisting | src/ballast/manager.rs:678-705 | the inventory becomes the scan of the directory |
| Manager.BallastManager.CreateBallastFile | src/ballast/manager.rs:771-810 | the slot holds the new file, or what the failed write left, or is untouched when the size is refused |
| Writes.CreationIff | src/ballast/manager.rs:771-824 | from the answers to each call: when a creation is refused, succeeds, runs out of storage, or breaks |
| Fleet.Perform | src/ballast/manager.rs:400-499 | a call on the object is one step of the runs over which the invariants are proved |
| Fleet.OpenManager | src/ballast/manager.rs:295-313 | opening a pool is such a step too |
| Pool.PassIsLocal | src/ballast/manager.rs:415-453 | a pass changes exactly the slots it visits, each by one visit of what was there before; every other file is untouched |
| Writes.VisitEndsIff | src/ballast/manager.rs:415-453 | from the same answers: how the visit of a slot that does not verify ends |
| Writes.IntactIsSkipped | src/ballast/manager.rs:420-425 | a slot that verifies is left alone |
| Writes.VisitLeaves | src/ballast/manager.rs:415-453 | what it leaves in the slot and how much space it leaves free, the check being made after clearing |
| Writes.PassStopsAt | src/ballast/manager.rs:429-451 | running out of storage or finding too little space ends the pass at that slot, is reported, and leaves all later slots alone |
| Writes.PassGoesOn | src/ballast/manager.rs:415-453 | nothing else ends it, but for the first file of a replenishing call |
| Writes.FullStorageStops | src/ballast/manager.rs:447-451 | an instance: two empty slots, the first creation out of storage |
| Writes.CountsMatchVisits | src/ballast/manager.rs:415-453 | the report counts the slots created and those left alone |
| Writes.SpaceBalances | src/ballast/manager.rs:412-453 | free space after a pass is what there was, plus what pruning and clearing won, less what creations took |
| Accounting.ProvisionAccounting | src/ballast/manager.rs:412-456 | under arbitrary faults: visited slots are a prefix, created + skipped + errors = visited, a visited slot without an error is intact, unvisited slots are untouched, an early stop happens only at a low-space or exhausted slot |
| Accounting.CreatedIsIntact | src/ballast/manager.rs:771-824 | a created file passes verification exactly when its blocks were allocated |
| Accounting.ForcedRandomData | src/ballast/manager.rs:792-809 | with preallocation switched off, whole passes in two environments that differ only in it are the same, and every file created was written with random data |
| Accounting.PruneOnSlots | src/ballast/manager.rs:630-672 | pruning removes canonical slots 0 and above the count, never a live slot; shrinking the count leaves lower slots alone |
| Accounting.PassLeavesNoOrphans | src/ballast/manager.rs:412-413 | after a pass whose removals succeeded, pruning again changes nothing |
| Accounting.ProvisionIsIdempotent | src/ballast/manager.rs:415-427 | after an error-free provision every slot is intact, and a second one creates 0, skips all, and leaves the directory as it was |
| Conservation.FillConserves | src/ballast/manager.rs:415-453 | bytes after + bytes of invalid files deleted or written over = bytes before + bytes reported created + bytes left by failed creations |
| Conservation.OnlyFailedCreationsLeaveResidue | src/ballast/manager.rs:415-453 | residue comes only from a creation that was begun and failed; an invalid file neither cleared nor written to is booked nowhere |
| Conservation.IdlePassBooksNothing | src/ballast/manager.rs:415-453 | a pass that creates nothing and leaves the directory as it was books nothing, so a stuck file never enters the ledger |
| Releases.ReleaseReports | src/ballast/manager.rs:471-489 | a release goes for the highest remembered slots; `released` counts those that were there and could be removed, `errors` lists the others, highest first, and exactly the released ones are gone |
| Releases.ScansAreAscending | src/ballast/manager.rs:678-705 | every inventory taken is ascending and within the count, as that asks |
| Conservation.ReleaseConserves | src/ballast/manager.rs:475-489 | bytes after + bytes reported freed = bytes before, for any list of indices |
| Writes.SizeIs | src/ballast/manager.rs:478-481 | the size measured is what the entry's status reports, 0 when there is none |
| Conservation.PruneConserves | src/ballast/manager.rs:630-672 | pruning splits the bytes into kept and pruned |
| Conservation.RunConserves | src/ballast/manager.rs:400-625 | over any interleaving of any number of managers with any inventories, unlocked calls taken whole or apart: on disk + freed + pruned + repaired = initial + created + residue |
| Conservation.SplitUpdateIsUpdate | src/ballast/manager.rs:351-357 | setting the configuration, removing the orphans one by one in any order and taking inventory make up a configuration change |
| Conservation.SplitOpenIsOpen | src/ballast/manager.rs:295-313 | and the like makes up opening a pool |
| Conservation.FreedIsBacked | src/ballast/manager.rs:475-489 | all bytes freed, pruned and repaired had been on disk or were put there: none is counted twice |
| Conservation.FreedIsBackedByReports | src/ballast/manager.rs:475-489 | when failed creations clean up, the bytes reported freed never exceed the initial bytes plus the bytes reported created |
| Prefix.FillKeepsPrefixIff | src/ballast/manager.rs:429-453 | from live slots 1..m, whatever faults it meets, a pass leaves a prefix if and only if what the environment will make it leave past them verifies and has no gap |
| Prefix.CleanFillIff | src/ballast/manager.rs:429-453 | where failed creations clean up and created files get their blocks, that means: creation is not broken at one slot and working at a later one that the pass reaches with the space it then has |
| Prefix.SoftFailureLeavesGap | src/ballast/manager.rs:447-451 | an input on which it does step over |
| Prefix.FailedCleanupLeavesJunk | src/ballast/manager.rs:781-785 | an input on which a failed cleanup leaves something that does not verify |
| Prefix.ReleaseKeepsPrefixIff | src/ballast/manager.rs:471-489 | whatever removals fail, a release from a memory of 1..k while 1..m are live keeps a prefix if and only if no slot it removes lies below a live one that stays |
| Prefix.FaultlessRelease | src/ballast/manager.rs:471-489 | when all removals succeed, that is: it is not behind or has nothing to do; a current inventory then leaves exactly 1..m-n |
| Prefix.FailedRemovalLeavesGap | src/ballast/manager.rs:484-488 | a failing removal leaves a gap even with a current inventory |
| Prefix.StaleReleaseLeavesGap | src/ballast/manager.rs:471-489 | an input on which a stale inventory leaves a gap |
| Prefix.PruneKeepsPrefixIff | src/ballast/manager.rs:351-357 | pruning to any count leaves a prefix if and only if no slot it removes lies below one whose removal fails, and exactly the slots within the count if and only if all others can be removed |
| Prefix.ShrinkThenGrow | src/ballast/manager.rs:351-357 | after shrinking and growing back, the live slots are a prefix if and only if no removed slot lies below one whose removal failed |
| Prefix.SurvivorLeavesGap | src/ballast/manager.rs:351-357 | an input on which a survivor becomes live without the slot below it |
| Prefix.RunKeepsPrefixIff | src/ballast/manager.rs:351-625 | over any run of any number of managers with one file size, each with its own count, the numbered files are exactly the intact slots 1..m all along if and only if every event meets the condition above for it |
| Prefix.RunKeepsPrefix | src/ballast/manager.rs:351-625 | in particular when creations fail only for lack of space, removals succeed and acting managers are not behind |
| Prefix.LoneRunKeepsPrefix | src/ballast/manager.rs:351-625 | a single manager is never behind: when its creations fail only for lack of space and its removals succeed, the live slots stay exactly 1..m over any run, through storage-full, low space and count changes |
| Gradual.ReplenishOneRepairsLowest | src/ballast/manager.rs:583-621 | one replenishing call repairs exactly the lowest missing or invalid slot |
| Gradual.ReplenishMeasure | src/ballast/manager.rs:583-621 | each call lowers the bad-slot count by one until it is zero, after which nothing is created and only pruning acts |
| Gradual.BenignIff | src/ballast/manager.rs:583-621 | what "no faults" means in terms of the environment's answers alone |
| Gradual.BulkRepairsAll | src/ballast/manager.rs:415-453 | a provision without faults repairs every bad slot and nothing else |
| Gradual.GradualRefinesBulk | src/ballast/manager.rs:568-625 | as many replenishing calls as bad slots, or more, reach the pool that one provision makes |
| FreeSpace.FloorIsTwentyPercent | src/ballast/manager.rs:36 | the floor as a percentage |
| FreeSpace.PassKeepsFloor | src/ballast/manager.rs:429-446 | with an honest check, any pass ends with at least min(start, 20% of the volume less one file) free |
| FreeSpace.LowVolumeLosesNothing | src/ballast/manager.rs:429-438 | a pass begun below the floor that gains no space creates nothing and loses no space |
| Views.ScanMirrors | src/ballast/manager.rs:678-705 | the inventory is strictly ascending and lists exactly the existing slots with their sizes and verdicts |
| Views.SnapshotIsComplete | src/ballast/manager.rs:213-257 | available + missing + unreadable = configured count |
| Views.ViewsAgree | src/ballast/manager.rs:331-348 | counts agree exactly when no slot holds a non-file; with every slot readable and sums below 2^64, releasable bytes and health agree too |
| Views.SpecialSlotDivides | src/ballast/manager.rs:678-705 | a directory in a slot's place makes the counts differ |
| Views.HealthAgreesIff | src/ballast/manager.rs:345-348 | health agrees exactly when no slot is unreadable and nothing but files lifts the remembered total over a threshold |
| Views.UnreadableSlotDivides | src/ballast/manager.rs:213-257 | an unreadable slot makes the manager say empty and the plain view indeterminate |
| Views.ReleaseLowersSlots | src/ballast/manager.rs:462-499 | whatever the inventory, the bytes in the slots drop by exactly the bytes reported freed |
| Views.ReleaseLowersInventoryIff | src/ballast/manager.rs:462-499 | the remembered total drops by exactly the bytes reported freed if and only if it was right |
| Views.StaleTotalDropsUnreported | src/ballast/manager.rs:471-498 | an inventory for which it does not |
| Availability.Observe | src/ballast/manager.rs:213-257 | the plain view counts each slot by what it is, without changing anything |
| Availability.HealthMeans | src/ballast/manager.rs:147-157 | what each state of health says about configured and releasable bytes |
| Availability.ObservationMeans | src/ballast/manager.rs:213-257 | the plain view: releasable bytes, and when health is unconfigured or indeterminate |
| RandomData.WriteRandomData | src/ballast/manager.rs:827-854 | writes exactly the requested bytes in chunks of at most 4 MiB, with floor(size / 64 MiB) syncs, or stops at the first call that fails; never more than 64 MiB unsynced |
| Mounts.FindMountIsDeepest | src/ballast/coordinator.rs:571-576 | a path resolves to the deepest mount above it, and to none exactly when no mount is above it |
| Mounts.SeenMountsIgnoreOrder | src/ballast/coordinator.rs:190-198 | the monitored mounts do not depend on order or repetition of the watched paths |
| Mounts.PoolDirOnOwnVolume | src/ballast/coordinator.rs:526-555 | a pool's directory lies on the pool's own volume if and only if it is the configured directory of that volume or nothing is mounted over the default one |
| Mounts.PoolDirsCollideIff | src/ballast/coordinator.rs:200-211 | two pools share a directory exactly when one owns the configured directory and it is the other's default; then one is mounted over the other's `.sbh` |
| Bulk.PoolDirIs | src/ballast/coordinator.rs:526-555 | the configured directory goes to the monitored mount it lies on, every other pool to its own `.sbh/ballast` |
| Mounts.PoolOnWrongVolume | src/ballast/coordinator.rs:526-555 | an instance of a pool on another volume, in the directory of that volume's pool |
| Coordinator.PoolsAreSuitable | src/ballast/coordinator.rs:233-301 | what discovery built: each mount of a watched path is in exactly one map, a pool exactly where suitable, told to skip preallocation unless its file system is known to reserve blocks |
| Bulk.StrategyIs | src/ballast/coordinator.rs:557-569 | the strategy for each file system by name |
| Bulk.ReasonIs | src/ballast/coordinator.rs:233-301 | the reason given for a mount without a pool |
| Bulk.OverridesApply | src/core/config.rs:277-301 | an override applies its count, size and switch to its own mount, the general settings elsewhere |
| Bulk.PoolAsKnown | src/ballast/coordinator.rs:213-301 | a pool keeps the file system, strategy, directory and settings of its mount |
| Bulk.SkippedAsKnown | src/ballast/coordinator.rs:213-301 | a mount without a pool is kept with the same and the reason |
| Mounts.PlanCoversWatchedMounts | src/ballast/coordinator.rs:190-213 | the plan covers exactly the mounts of the watched paths and ignores their order |
| Mounts.PlanSeparatesPools | src/ballast/coordinator.rs:200-211 | when no mount sits on another's `.sbh` tree, pool directories are pairwise distinct and each resolves to its own mount |
| Coordinator.BallastPoolCoordinator.DiscoverInner | src/ballast/coordinator.rs:179-307 | every monitored mount ends in exactly one of the two maps, as planned; directories of no pool are untouched, any other holds what none of its pools pruned; with directories of their own the pools are isolated and their inventories true |
| Coordinator.OwnDirIsOpened | src/ballast/coordinator.rs:200-301 | a directory that is one pool's alone is created if need be and pruned by that pool |
| Coordinator.DiscoveryIgnoresOrder | src/ballast/coordinator.rs:213-307 | pools, settings, skipped mounts and the disk do not depend on the order of the visits, even when pools share a directory; between isolated pools neither do the inventories |
| Coordinator.BallastPoolCoordinator.ReleaseForMount | src/ballast/coordinator.rs:359-374 | nothing without a pool or a file, failure exactly for want of the lock, else one release: only the named mount's directory and inventory change |
| Coordinator.BallastPoolCoordinator.ReleaseForPath | src/ballast/coordinator.rs:484-495 | the same for the mount the path resolves to, and nothing exactly when there is no mount, pool or file |
| Coordinator.BallastPoolCoordinator.ReplenishForMount | src/ballast/coordinator.rs:379-390 | nothing without a pool, failure exactly for want of the lock, else one single-file pass: only the named mount's directory and inventory change |
| Coordinator.BallastPoolCoordinator.ProvisionAll | src/ballast/coordinator.rs:311-353 | only pool directories change; between isolated pools each volume's outcome depends on that volume alone, failures elsewhere included |
| Bulk.ProvisionedIffEligible | src/ballast/coordinator.rs:315-348 | between isolated pools a volume is provisioned exactly when its statistics could be read, 20% of it is free and the lock obtained; each reason for passing over one, and that it stays as it was |
| Bulk.EligibleGetsPass | src/ballast/coordinator.rs:315-348 | a provisioned volume gets one pass with its own settings and answers |
| Bulk.EligibleVolumeIsFilled | src/ballast/coordinator.rs:315-348 | when nothing goes wrong on it, its pool is full afterwards, whatever happens on the others |
| Coordinator.BallastPoolCoordinator.UpdateConfig | src/ballast/coordinator.rs:498-504 | every pool gets its own settings and only pool directories change; between isolated pools also its own pruning and inventory |
| Bulk.UpdatedAsConfigured | src/ballast/coordinator.rs:498-504 | between isolated pools: own settings, and of the slots exactly the removable ones past the own count are gone |
| Coordinator.BallastPoolCoordinator.ComputeTotal | src/ballast/coordinator.rs:451-453 | the loop computes the sum over all pools in any order |
| Coordinator.TotalOfOneMore | src/ballast/coordinator.rs:451-453 | the total is 0 without pools, and each pool adds what it remembers |
| Coordinator.ReleaseIsExactIff | src/ballast/coordinator.rs:359-374 | between isolated pools a release leaves every other pool and its files alone, and lowers the total by exactly the bytes reported if and only if the pool's remembered total was right |
| Coordinator.BulkIgnoresOrder | src/ballast/coordinator.rs:315-348 | the results of a bulk provision, and of a configuration update, do not depend on the map's iteration order |
| Isolation.Perform | src/ballast/coordinator.rs:311-504 | a call on the coordinator is one step of the runs below |
| Isolation.RunKeepsApart | src/ballast/coordinator.rs:311-504 | over any run of coordinator calls, pools that start in directories of their own with true inventories stay so |
| Isolation.OthersNeverTouch | src/ballast/coordinator.rs:359-390 | over any run of calls targeted at other mounts a pool keeps its settings, inventory and files, whatever faults the others meet |
| Isolation.ReleasesAreExactInRuns | src/ballast/coordinator.rs:359-374 | over any run from such a start, a release lowers the total over all pools by exactly what it reports |
| Blame.BlameTreeOrder | src/cli_app.rs:2967-2989 | the program's listing is the specified one (the walk, then the rows not reached) of the rows with every parent pid dropped that no row has; the lemmas below hold for any rows, so for these |
| Blame.TreeWalker.AppendChildren | src/cli_app.rs:2991-3015 | the recursive method, with its shared visited set, is the walk over the siblings |
| Blame.OrderIsPermutation | src/cli_app.rs:2967-3015 | for any rows the listing holds every row index exactly once |
| Blame.WalkReachesRooted | src/cli_app.rs:2991-3015 | for any rows the walk reaches exactly those whose parent chain reaches a root |
| Blame.RootedIffParentRooted | src/cli_app.rs:2973-2976 | what it means not to be reached: there are parents, and none of them is rooted |
| Blame.UnrootedIffCycle | src/cli_app.rs:2967-2989 | with distinct pids, a row's parent chain fails to reach a root exactly when it runs into a cycle |
| Blame.OrderIsForestThenRest | src/cli_app.rs:2967-3015 | with distinct pids: first the rows not on or below a cycle, in preorder, at depth = number of ancestors; then exactly the rows on or below one, at depth 0, in index order |
| ShellCommand.QuoteIs | src/cli_app.rs:923-935 | a value of safe characters is printed as it is, any other in single quotes |
| ShellCommand.EscapeIs | src/cli_app.rs:923-935 | inside the quotes only single quotes are replaced |
| ShellCommand.QuoteAppends | src/cli_app.rs:923-935 | a quoted value reads back as exactly that value, wherever it stands in a word |
| ShellCommand.SudoEnvIsProper | src/cli_app.rs:964-1001 | the forwarded variables have proper names, each at most once |
| ShellCommand.SudoEnvForwards | src/cli_app.rs:964-1001 | exactly what is forwarded and in which order: home and label for launchd when set, the configuration file given or else the one in the environment, the log filter when set |
| ShellCommand.FormatRerunCommand | src/cli_app.rs:1003-1021 | the command line is the specified parts joined by spaces, and a shell reads it as sudo, env and the forwarded words if any, and the arguments |
| ShellCommand.CommandRoundTrip | src/cli_app.rs:1003-1021 | a POSIX shell reads the command as sudo, env and assignments if any, then the original arguments, each one word, nothing split or expanded |
| TomlSet.Document.SetValue | src/cli_app.rs:4122-4144 | on success the document is the specified one; on error it is exactly what it was |
| TomlSet.SetSucceedsIff | src/cli_app.rs:4128-4139 | a set succeeds exactly when no proper prefix of the path holds a non-table |
| TomlSet.SetThenGet | src/cli_app.rs:4141-4143 | the path then reads as the parsed value |
| TomlSet.SetFrames | src/cli_app.rs:4128-4143 | every path that is neither prefix nor extension keeps its value |
| TomlSet.SetsCommute | src/cli_app.rs:3792-3794 | successful sets on incomparable paths commute and neither makes the other fail |
| TomlSet.LastSetWins | src/cli_app.rs:3792-3794 | setting a path twice is setting it once, to the last value |
| Dots.SplitLosesNothing | src/cli_app.rs:4123 | the components joined by dots give the path back, and none holds a dot |
| JsonDiff.DiffIsExact | src/cli_app.rs:4161-4199 | a line for a path and value is printed exactly when the values differ there, are not both objects there but are above it, and the value is the default one for a removed line, the effective one for an added line |
| JsonDiff.DiffInOrder | src/cli_app.rs:4164-4198 | lines come in the order of their paths; two about one path are neighbours, the removed value first |
| JsonDiff.LeqIsDictionary | src/cli_app.rs:4165-4166 | keys are ordered as in a dictionary |
| JsonDiff.DiffReconstructs | src/cli_app.rs:4161-4199 | the printed lines, with paths as key lists, turn the default value into the effective one |
| JsonDiff.DiffIsSilentIffEqual | src/cli_app.rs:4161-4199 | nothing is printed exactly when the values are equal |
| JsonDiff.PrintedPathsCollide | src/cli_app.rs:4169-4173 | two different key paths that print alike |
| JsonDiff.PrintedDiffsCollide | src/cli_app.rs:4161-4199 | two different effective values whose diffs from the same default print the same |
| JsonDiff.PrintAlikeIff | src/cli_app.rs:4169-4173 | two paths print alike exactly when they agree after dropping leading empty keys and splitting the rest at dots |
| JsonDiff.DiffsPrintAlikeIff | src/cli_app.rs:4161-4199 | two diffs print the same exactly when they agree line by line in sign and value, and in the pieces of their paths |
| JsonDiff.PrintedPathsAreFaithful | src/cli_app.rs:4169-4173 | so without empty keys and dots in keys, printed paths are faithful |
| JsonDiff.PrintedDiffIsFaithful | src/cli_app.rs:4161-4199 | for values without such keys, given the default, two effective values print the same lines exactly when they are equal |
| ByteCount.ParseIsExact | src/cli_app.rs:9233-9290 | exactly when a number is accepted; the value is the floor of the exact decimal times the multiplier |
| ByteCount.ShortFractionsAlwaysFit | src/cli_app.rs:9266-9286 | with at most 26 fractional digits a well-formed number is accepted exactly when the floor fits in 64 bits, for every suffix up to T |
| ByteCount.LongFractionIsRefused | src/cli_app.rs:9277-9280 | an input whose value fits but is refused |
| ByteCount.SpacingAndCaseAreFree | src/cli_app.rs:9206-9231 | white space around number and unit and the unit's letter case do not matter |
| ByteCount.MultiplierIsPower | src/cli_app.rs:9217-9228 | the n-th of K, M, G, T, alone or with B or iB, multiplies by 1024 to the n; no other units but those for bytes |
| ByteCount.LowerIs | src/cli_app.rs:9216 | what lower-casing a unit does |
| ByteCount.WhiteIs | src/cli_app.rs:9207-9216 | which characters are trimmed |
| ByteCount.WellFormedIff | src/cli_app.rs:9233-9290 | which numbers are accepted in principle, and what they are worth |
| ByteCount.ByteCountIsExact | src/cli_app.rs:9206-9290 | every accepted text has a known unit and a well-formed number, and its value is exact |

## Left out

- Header codec: the JSON library itself; headers are read and written by a parameter constrained only by `Header.Lawful`.
- Operating-system calls: `flock`, preallocation, fsync and directory creation are answers of the environment; the lock file's own entry, file modes, symbolic links and bind mounts are not part of this model.
- Printed lines: a line is its sign, the text of its path and its value; the line is not parsed back from one string.
- Runs with several file sizes (`Prefix`): all managers of a run have one file size; their counts may differ and change.
- Message texts: errors keep the slot and the kind, not their wording; Time Machine warnings and creation times do not appear.
- Atomic calls: a call that holds the lock is one step; an unlocked removal between two slot visits of such a call is not modelled, nor is a change between the checks on one directory entry and its removal.
- Report counters: `bytes_freed`, `total_bytes` and the releasable sums are unbounded; their 64-bit overflow is not modelled (the plain view's saturation is).
- File counts: `file_count` is assumed to fit in 32 bits, as the configuration's limit of 100000 ensures.
- Directory entries: names are Unicode strings; an entry whose name is not valid UTF-8 is skipped by the pruner and does not appear.
- Free percentages: the 20% test is exact cross-multiplication instead of floating point.
- Random payloads: contents of the data blocks do not appear, and a write call that fails is not split into the part that reached the disk.
- Coordinator.BallastPoolCoordinator.DiscoverInner: when two pools share a directory, the inventory of the one opened first may list what the other then prunes; nothing is claimed about inventories there.
- Mount table text: mount paths are normalised component lists and override keys are such paths; trailing separators and lossy text are not modelled.
- Coordinator.BallastPoolCoordinator.UpdateConfig: when two pools share a directory, its contents and their inventories are not claimed, because they depend on the visiting order.
- Coordinator.BallastPoolCoordinator.ProvisionAll: the same holds there.
- Coordinator reports: `verify_all` and the sorted `inventory` listing only repeat per-pool facts.
- parse_toml_value: guessing the type of the raw text is one-line matching; the parsed value is a parameter.
- Everything else in the repository: scanner, policy engine, controllers, services, dashboards, loggers and updates.
