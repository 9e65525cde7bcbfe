# TinyDB: migration, index planner and page accounting, verified

TinyDB is a disk-backed B+ tree engine. This project models its three hardest
parts in Dafny and proves what they are for. `dafny verify dfyconfig.toml`
verifies all of it.

**Migration of a fixed-V1 tree to a compact-V2 tree.** `Pages` and `Trees` say
what pages and trees over them are, and `Limits` derives the sizes of the program
from its layouts. `OldTree` is the reference definition of a
well-formed fixed-V1 tree; `OwnershipWalk`, `OwnershipRanges`, `OwnershipChain`
and `OwnershipCollect` are the breadth-first walk, the key-range fixpoint and the
sibling-chain check that decide it. `LiveGuard` is the second walker, the map of
pages reachable from the catalog. `SlottedLeaves` is the page format of the new
leaves. `StagingGeometry`, `LeafChains`, `StagingTree`, `StagingSound`,
`StagingDisorder`, `StagingLayout`, `StagingBuild`, `StagingBuilder`,
`StagingOrder` and `StagingPager` are the staged hierarchy: its arithmetic, its
leaf chain, its validator, why an accepted hierarchy is a tree and exactly when it
is in order, the builder, why what it builds is accepted and ordered, and how it
reaches the disk. `Manifest`, `Crc32`, `LittleEndian`, `ManifestCodec` and
`ManifestStore` are the intent record as a value, as bytes and as a file;
`MachineWords`, `Residues` and `ManifestBytes` pin its checksum and its layout to
known values. `Pager`, `PagerReclaim` and `Recovery` are the
executor that runs at every reopen. `Safety`, `Migration`, `Convergence`,
`StaleManifests` and `Leaks` put the steps into one machine with crashes, failing
steps and other work and prove the protocol theorems over all its runs.

**Secondary-index planner.** `EpochCache` is the snapshot cache guarded by one
epoch number. `IndexBounds`, `IndexPlans` and `AnchorPlans` are the sorted image of
a column, range fusion, key intersection and the two executors; `IndexPlanner`
chooses between them with estimators that may answer anything, and `CachedPlans`
runs them over the cache. `ValueOrder` and `LikePatterns` say what a test of a value
means. `Ranking`, `Frequencies`, `KeptRuns`, `Statistics`, `Conjunctions` and
`PairStatistics` are the optimizer statistics, what they estimate and how far off
that can be.

**Boolean WHERE expressions and page accounting.** `Lexer`, `BooleanText`,
`BooleanNodes` and `BooleanParser` are the precedence parser over a bounded node
array, its evaluator and its printer; `BooleanSyntax` is the language as it may be
written. `PageOwnership` is the recursive claim that
accounts for every page.

The main theorems are `Migration.RunIsSafe`, `Convergence.RecoveryConverges`,
`OwnershipCollect.CollectOwnership`, `StagingBuilder.Build` with
`StagingSound.AcceptedIsATree` and `StagingOrder.RoutingIsExact`,
`StagingDisorder.LookupIff`, `StaleManifests.PassesIff`, `Leaks.LeakIff`,
`ManifestCodec.Decode`, `CachedPlans.RunIntersection`,
`AnchorPlans.AnchorWindowIff`, `EpochCache.Store.ReadSnapshot`,
`Statistics.EstimateLessEqual`, `BooleanSyntax.WrittenIsRead`,
`BooleanText.FormatRereads` and `PageOwnership.CheckOwnership`.

## How the program is modelled

- A page is a record of the fields the code reads: type, root flag, parent,
  separator cells, right child, keys, previous and next leaf, and the slots and
  payload bytes of a slotted leaf. Page numbers, keys and counts are naturals;
  32-bit limits appear where the code depends on them.
- Committing and checkpointing is one durable step, and rollback restores pages
  and free list exactly (README.md:288). Publishing the catalog entry is one atomic
  step between the two manifest phases. A step that reports failure leaves the
  process open (`GiveUp`), and ordinary work may go on between the steps as long as
  it keeps the staged tree complete and out of reach.
- Renaming and removing files reach the disk in the order they were made, and
  certainly once the directory was synced; a crash keeps some prefix of the rest.
  So an unsynced removal of the manifest can be undone after the freed pages were
  used again, and `Migration.RunIsSafe` covers that.
- A racing pin is an adversary: it may fail a preflight, or make one page refuse
  to be freed. Steps that can fail take their outcomes from an input.
- An autocommitted row change is durable when it returns. A snapshot file is
  either a complete earlier write or rejected; that its checksum excludes
  everything else is assumed.
- An index names its table exactly as the schema does
  (src/generic_index_epoch.c:342 compares exactly, other files ignore case), and
  no plan reads an index on the primary key
  (src/generic_index_anchor_v2_sql.c:105-109).
- Sorting is the function it computes: the order is total on what is compared, so
  the sorted arrangement is determined. Strings contain no zero character. In the
  expression modules the meaning of a single predicate is a parameter.
- In the ownership walk the per-page arrays of the code are one array of records.

## What the proofs brought up

- The validator of the hierarchy does not imply key order: it compares separators
  with the largest key along right children only. `StagingDisorder.OrderIff` says
  exactly when an accepted hierarchy is in order, and `LookupIff` that this is
  exactly when every row is found. Up to 510 leaves it always is
  (`SmallKeepsOrder`); `TwistedIsAccepted` is an accepted hierarchy over 511 leaves
  that is not. What the builder makes is in order (`StagingOrder`).
- An even split needs fanout three or more
  (`StagingGeometry.TwoChildrenNeedsThreeWays`); the program has 510.
- The epoch wrap keeps old snapshots. `EpochCache.FenceIff` says exactly when that
  is harmless, and `EpochCache.ReachStaleRead` reaches a stale read from a new
  database when the clock repeats the first seed at the wrap.
- A crash after the staged tree is durable but before a manifest name survives
  leaves the staged pages allocated and unreachable. `Leaks.LeakIff` says exactly
  when pages are lost, `Leaks.EveryJobCanLeak` that every migration can lose them,
  and `Leaks.StagingAddsOrphans` that the ownership check reports exactly them as
  additional orphans. No live page is affected.
- An unsynced removal of the manifest can be undone by a crash after freed pages were
  used again. `StaleManifests.PassesIff` says exactly when the manifest then still
  passes the preflight. `ReusedClaimSticks` is a run, for every migration whose catalog
  has room for a table, after which it never does and the database does not open again.
- The anchor plan returns rows in index order, so with LIMIT or OFFSET it returns
  as many rows as the scan, but not necessarily the same ones:
  `AnchorPlans.LimitOneDiffers` is a table of two rows, and
  `AnchorPlans.AnchorWindowIff` says exactly which windows are safe.
- The products of the intersection cost can wrap at 64 bits for estimates above the
  table size (`IndexPlanner.WrapMatters`) and for no others
  (`IndexPlanner.SurvivorsFit`).
- Validation of a slotted page leaves no room for holes, so compaction never gains
  a byte (`SlottedLeaves.CompactGainsNothing`).

## Model

| member | source | states |
|---|---|---|
| Pager.Pager.Begin | src/pager.c:962-984 | a transaction starts from a flushed file: snapshot, disk and current image agree and nothing is dirty |
| Pager.Pager.CommitAndCheckpoint | src/pager.c:986-1118 | one durable step: the disk becomes the current image, which does not change |
| Pager.Pager.Rollback | src/pager.c:1051-1074 | exact restore of pages and free list with nothing left dirty, and no effect outside a transaction; the disk is untouched |
| LevelOrder.QueueIsTheTree | src/fixed_v1_tree_reclaim.h:136-240 | a completed breadth-first queue lists the pages of exactly one tree, each as often as it occurs there |
| OwnershipWalk.Expand | src/fixed_v1_tree_reclaim.h:203-237 | children are enqueued exactly when separators ascend and no child is page zero, out of range, repeated or seen before; the queue never outgrows the file |
| OwnershipWalk.RecordLeaf | src/fixed_v1_tree_reclaim.h:164-201 | a leaf is taken exactly when it has at most 13 ascending keys, is not empty unless it is the root, and its links are in range; its links and key range are recorded |
| OwnershipWalk.Visit | src/fixed_v1_tree_reclaim.h:136-240 | one dequeued page passes exactly when header, parent, keys and children are admissible; then the queue grows by its children and the page is settled |
| OwnershipWalk.Enqueue | src/fixed_v1_tree_reclaim.h:136-240 | the breadth-first phase fails only if no well-formed tree hangs at the root, never queues more entries than the file has pages, and counts the leaves |
| OwnershipRanges.TryResolve | src/fixed_v1_tree_reclaim.h:255-295 | a page gets a key range exactly when all children have one, they ascend, and every separator is the largest key to its left |
| OwnershipRanges.Pass | src/fixed_v1_tree_reclaim.h:242-295 | a pass resolves as many pages as it reports, each with the true smallest and largest key below it; a pass without progress means nothing can be resolved |
| OwnershipRanges.ResolveRanges | src/fixed_v1_tree_reclaim.h:242-297 | the fixpoint terminates and succeeds exactly when the subtree of the root meets every structural and key-range condition |
| OwnershipChain.CheckLinks | src/fixed_v1_tree_reclaim.h:299-327 | exactly when every leaf links reciprocally to leaves on the right side; the leaves without a predecessor are counted |
| OwnershipChain.FollowChain | src/fixed_v1_tree_reclaim.h:330-340 | the walk along `next` visits leaves linked one to the next in ascending key order and stops only where `next` is zero or too many leaves were met |
| OwnershipChain.CheckChain | src/fixed_v1_tree_reclaim.h:299-342 | the chain check accepts exactly when the leaves, left to right, form one reciprocal sibling chain |
| OwnershipCollect.WalkTree | src/fixed_v1_tree_reclaim.h:81-361 | the three phases accept exactly the roots of well-formed trees, and the pages collected are the pages of that tree, each once |
| OwnershipCollect.CollectOwnership | src/fixed_v1_tree_reclaim.h:81-361 | with its transaction, page-zero and free-list guards, the walk accepts exactly the well-formed trees; the root comes first |
| OwnershipCollect.SiblingScanIsInOrder | src/fixed_v1_tree_reclaim.h:299-342 | in an accepted tree, following `next` from the leftmost leaf visits every leaf once, in in-order traversal order, with ascending keys |
| OldTree.TreeFacts | src/fixed_v1_tree_reclaim.h:136-297 | what acceptance promises page by page: header, allocation, ascending separators, distinct children with right parents inside the tree |
| OldTree.LeavesSpan | src/fixed_v1_tree_reclaim.h:242-297 | the leaves of a well-formed tree cover disjoint ascending key ranges between its smallest and largest key |
| LiveGuard.Enlist | src/compact_v2_migration_live_page_guard.h:88-111 | children are marked exactly when they are distinct, in range, allocated and in no tree collected before |
| LiveGuard.CollectTreePages | src/compact_v2_migration_live_page_guard.h:38-129 | succeeds exactly when the root has a tree that touches no free page and no tree collected earlier, and then adds precisely its pages to the map |
| LiveGuard.BuildLiveMap | src/compact_v2_migration_live_page_guard.h:131-149 | succeeds exactly when every catalog root has its own tree, and then marks precisely the pages reachable from the catalog |
| LiveGuard.TreesAreLive | src/compact_v2_migration_live_page_guard.h:131-149 | pages of the catalog trees and pages reachable from catalog roots are the same |
| Recovery.CheckDetached | src/compact_v2_migration_live_page_guard.h:180-215 | an old root is safe exactly when it is not live and either reclaimed already or carries a tree clear of every live page |
| Recovery.ClaimsAreDisjointFromLive | src/compact_v2_migration_full_page_preflight.h:21-34 | exactly when every claim is in range and none is reachable from the catalog |
| Recovery.CheckPagesAreSafe | src/compact_v2_migration_full_page_preflight.h:36-95 | the gate run before any reclaim: true exactly when the catalog is intact and what the classified action would reclaim is out of reach of it |
| PagerReclaim.CheckNumbers | src/compact_v2_migration_pager_reclaim.h:32-65 | exactly when all numbers are distinct, nonzero and in range |
| PagerReclaim.Preflight | src/compact_v2_migration_pager_reclaim.h:32-65 | the complete claim set and the free list are examined before the first free |
| PagerReclaim.ReclaimClaims | src/compact_v2_migration_pager_reclaim.h:91-137 | the free list grows by exactly the claims not free yet and not pinned meanwhile, in order, or by nothing; success exactly when every claim ended up free |
| PagerReclaim.FreedElements | src/compact_v2_migration_pager_reclaim.h:91-137 | freeing adds precisely the claims, never a page twice, so a repeated reclaim is idempotent |
| PagerReclaim.RetirePageZeroRoot | src/fixed_v1_tree_reclaim.h:388-435 | on success everything below page zero is free and page zero is a rooted leaf without rows, parent or neighbours; without pins a well-formed or already retired root always succeeds |
| PagerReclaim.TreeReclaim | src/fixed_v1_tree_reclaim.h:437-460 | on success the free set is the old one plus the tree, with no duplicate, the root is free or, if it is page zero, a rooted leaf without rows; a tree reclaimed before is recognised and nothing changes |
| PagerReclaim.RowsAreNotReclaimed | src/fixed_v1_tree_reclaim.h:371-386 | a root whose tree holds a row is never taken as reclaimed already |
| PagerReclaim.ReclaimedTreeIsGone | src/fixed_v1_tree_reclaim.h:388-460 | whatever tree hung at the root, after its reclaim its pages are free, page zero holds no row, and no other page was written |
| PagerReclaim.ReclaimIsIdempotent | src/fixed_v1_tree_reclaim.h:437-460 | reclaiming a reclaimed tree again changes nothing |
| Recovery.FindEntry | src/compact_v2_migration_pager_recovery.h:51-63 | the authoritative entry of a table, or none when the catalog is unusable |
| Recovery.ClassifyIs | src/compact_v2_migration_recovery.h:82-105 | staging is reclaimed exactly for a valid first-phase manifest over its old root and generation, the old tree exactly for a valid manifest over its new ones |
| Recovery.Adapter.Reclaim | src/compact_v2_migration_pager_recovery.h:65-93 | the action carried out for a classified manifest, and that sound inputs without pins always succeed |
| Recovery.Adapter.SyncReclaim | src/compact_v2_migration_pager_recovery.h:95-108 | the checkpoint happens exactly once, in a transaction, and makes the reclaim durable |
| Recovery.Adapter.RemoveManifest | src/compact_v2_migration_pager_recovery.h:110-119 | the manifest name goes only after the reclaim was checkpointed |
| Recovery.Adapter.RecoverReopen | src/compact_v2_migration_recovery.h:123-175 | read catalog, classify, reclaim, checkpoint, remove, sync, in this order: when a step fails the earlier ones stand and the later ones did not happen |
| Recovery.Adapter.PagerRecoverReopen | src/compact_v2_migration_pager_recovery.h:132-168 | one attempt ends outside a transaction with either nothing changed or the reclaim durable; faultless attempts on reclaimable inputs succeed |
| Safety.OldTreeIsLiveTree | src/fixed_v1_tree_reclaim.h:81-361 | whatever the ownership walk accepts, the live-page walk accepts |
| Safety.WalkersAgree | src/compact_v2_migration_live_page_guard.h:38-129 | when both walkers accept one root they see the same tree, so preflight and reclaim concern the same pages |
| Safety.SafeReclaim | src/compact_v2_migration_full_page_preflight.h:36-95 | after a passed preflight a completed reclaim frees or overwrites no live page, keeps all catalog trees and a sound free list |
| Migration.StageIsSafe | src/compact_v2_staging_durable.h:67-139 | making a staged tree durable leaves every live page alone |
| Migration.ReplaceEntry | src/compact_v2_migration_manifest_store.h:100-105 | publication changes exactly the entry of the migrated table |
| Migration.PublishedCatalog | src/compact_v2_migration_manifest_store.h:100-105 | publication keeps every other tree and puts the old tree out of reach |
| Migration.StepIsSafe | src/compact_v2_migration_recovery.h:123-175 | every step of migration, recovery or crash keeps the invariant and spares live pages |
| Migration.RunIsSafe | src/compact_v2_migration_recovery.h:123-175 | in every run, with a crash after any step, any surviving manifest name, publish steps that fail and leave the process open, and ordinary work between the steps, no page reachable from an authoritative root is freed or overwritten by migration or recovery |
| Convergence.ActionBefore | src/compact_v2_migration_recovery.h:82-105 | before publication a surviving manifest is classified as reclaim-the-staging |
| Convergence.ActionAfter | src/compact_v2_migration_recovery.h:82-105 | after publication either manifest is classified as reclaim-the-old-tree |
| Convergence.ManifestIsUsable | src/compact_v2_migration_recovery.h:82-105 | while other work spares the pages of the migration, no state the protocol reaches is classified invalid: a visible manifest passes the preflight and its reclaim can be carried out |
| Convergence.RunStaysOnCourse | src/compact_v2_migration_recovery.h:123-175 | every interrupted run, whatever work goes on elsewhere in the file, stays in one of two situations: old entry with the staging absent, intact or given back, new entry with the old tree intact or given back |
| Convergence.RecoveryConverges | src/compact_v2_migration_recovery.h:140-174 | any number of interrupted attempts, with work elsewhere in between, followed by a completed one leave the root, the spared pages, their freeness and the page-zero tombstone of one uninterrupted attempt |
| Convergence.CompletedIsClean | src/compact_v2_migration_recovery.h:140-174 | and that is: under the old entry every claim free; under the new one every page of the old tree free, page zero an empty rooted leaf |
| Convergence.QuietRecoveryConverges | src/compact_v2_migration_recovery.h:140-174 | without other work the whole file and the whole free set are those of one uninterrupted attempt |
| StaleManifests.PassesIff | src/compact_v2_migration_full_page_preflight.h:21-95 | in every run, among any work that leaks no page and touches no lost one, a visible manifest passes the preflight if and only if it is classified and no page its action names was adopted by a live tree |
| StaleManifests.VisibleIsClassified | src/compact_v2_migration_recovery.h:82-105 | and it is classified as long as other work leaves the table its catalog entry |
| StaleManifests.StuckForGood | src/compact_v2_migration_recovery.h:140-174 | a closed database whose only manifest does not pass stays as it is, whatever step is taken |
| StaleManifests.ReusedClaimSticks | src/compact_v2_migration_recovery.h:140-174 | every migration with room for one more table has such a run: reclaimed, the removal of the manifest not synced, a freed claim used again, and the manifest back after a crash |
| Leaks.LeakIff | src/compact_v2_staging_durable.h:67-139 | in every state of every run the staged pages are in use, out of reach and named by no surviving manifest if and only if they are staged, the catalog entry is the old one and no manifest name can survive |
| Leaks.EveryJobCanLeak | src/compact_v2_staging_durable.h:67-139 | every migration can end so: staged, crashed before the manifest, opened again |
| Leaks.LeakStays | src/compact_v2_migration_recovery.h:123-175 | once the process that staged them is gone or has given up, no step of migration, recovery or other work finds the pages again |
| Leaks.StagingAddsOrphans | src/diagnostics.c:566-639 | to the page-ownership check the lost pages are exactly the additional orphans |
| Convergence.AttemptIsRun | src/compact_v2_migration_recovery.h:123-175 | what one call of the recovery executor does is a run of the step machine |
| Convergence.GoneIsRecognised | src/fixed_v1_tree_reclaim.h:371-386 | a reclaimed old tree is recognised from the file alone |
| Manifest.CheckValid | src/compact_v2_migration_manifest.h:99-123 | the nested loops decide manifest validity |
| Crc32.Crc | src/compact_v2_migration_manifest.h:84-97 | the loop computes the CRC-32 of section 8 of RFC 1952 over the given bytes |
| Residues.ResidueIff | src/compact_v2_migration_manifest.h:84-97 | a byte string ends with the checksum of what precedes it exactly when the register after all of it is 0xdebb20e3 |
| Residues.CheckValue | src/compact_v2_migration_manifest.h:84-97 | the checksum of the nine digits is the published check value 0xcbf43926 |
| Crc32.BitStepInjective | src/compact_v2_migration_manifest.h:84-97 | a step of the CRC register loses nothing |
| Crc32.ChecksumPinsByte | src/compact_v2_migration_manifest.h:84-97 | byte strings that differ in one byte have different checksums |
| LittleEndian.Write | src/compact_v2_migration_manifest.h:47-63 | the written field reads back as the value and no other byte changes |
| LittleEndian.ReadInjective | src/compact_v2_migration_manifest.h:65-82 | equal numbers come from equal bytes |
| ManifestCodec.Encode | src/compact_v2_migration_manifest.h:142-181 | succeeds exactly for valid manifests that fit, writes their byte form and nothing behind it |
| ManifestCodec.Decode | src/compact_v2_migration_manifest.h:183-232 | accepts exactly the byte forms of valid manifests whose claims fit, and returns that manifest |
| ManifestCodec.OneManifest | src/compact_v2_migration_manifest.h:183-232 | a byte form stands for one manifest: decoding inverts encoding |
| ManifestCodec.OneByteForm | src/compact_v2_migration_manifest.h:142-181 | a manifest has one byte form: encoding reproduces every accepted byte string |
| ManifestCodec.OneByteIsNoticed | src/compact_v2_migration_manifest.h:208-213 | changing any single byte of a byte form leaves something that is no byte form of any manifest |
| ManifestBytes.SampleBytes | src/compact_v2_migration_manifest.h:142-181 | a manifest with twenty-eight different field bytes has the fifty-two bytes written out here, checksum included, and no others |
| ManifestStore.SameIdentity | src/compact_v2_migration_manifest_store.h:81-98 | exactly when two valid manifests differ at most in phase |
| ManifestStore.Sidecar.PublishDurable | src/compact_v2_migration_manifest_store.h:57-79 | whichever of the four steps fails, the sidecar shows what it showed before or the new manifest; success means a crash can only leave the new one, and a valid manifest that fits succeeds if the four steps do |
| ManifestStore.Sidecar.MarkCatalogPublished | src/compact_v2_migration_manifest_store.h:106-141 | only a valid first-phase manifest is advanced, and only its phase changes |
| ManifestStore.Sidecar.Crash | src/compact_v2_migration_manifest_store.h:10-27 | a crash leaves one of the possible sidecars, complete: its contents were synced before it got its name |
| ManifestStore.Sidecar.Load | src/compact_v2_migration_manifest.h:183-232 | reading the sidecar gives back the manifest that was published |
| Limits.PageCapacities | src/table.h:76-142 | leaves of 13 rows, internal pages of 509 keys and 510 children: as many as fit the layout |
| Limits.SlottedSizes | src/slotted_leaf_v2.h:8-43 | the sizes of the slotted header and its slots, and the magic number, from their fields |
| StagingGeometry.EvenSplit | src/compact_v2_staging_hierarchy.h:369-381 | with fanout at least three every parent gets between two and fanout children |
| StagingGeometry.ParentsIs | src/compact_v2_staging_hierarchy.h:370-374 | as few parents as hold all nodes |
| StagingGeometry.SharesAreEven | src/compact_v2_staging_hierarchy.h:378-382 | the shares differ by one child at most, the larger ones first |
| StagingGeometry.TwoChildrenNeedsThreeWays | src/compact_v2_staging_hierarchy.h:378-382 | fanout three is exactly what it takes: with two, three leaves leave a one-child parent |
| StagingGeometry.OffsetTotal | src/compact_v2_staging_hierarchy.h:369-410 | the shares of the parents add up to the level |
| StagingGeometry.ParentsShrink | src/compact_v2_staging_hierarchy.h:370-374 | each level has at most half as many pages as the one below |
| StagingGeometry.FewInternalPages | src/compact_v2_staging_hierarchy.h:61-86 | internal pages are at most leaf count minus one, so 32-bit counts cannot overflow |
| StagingGeometry.RequiredInternalPages | src/compact_v2_staging_hierarchy.h:61-86 | the preflight succeeds exactly from two leaves on and computes the pages and levels the build uses |
| SlottedLeaves.SlottedLeaf.Validate | src/slotted_leaf_v2.c:117-169 | exactly when magic number and version are right, the free-space bounds are right, every payload lies behind the free space, keys ascend, payloads are disjoint and their lengths add up |
| SlottedLeaves.PayloadsTile | src/slotted_leaf_v2.c:117-169 | in a valid page every byte behind the free space belongs to exactly one row |
| SlottedLeaves.SlottedLeaf.LowerBound | src/slotted_leaf_v2.c:182-197 | the first slot not below the key, by binary search |
| SlottedLeaves.SlottedLeaf.Insert | src/slotted_leaf_v2.c:215-258 | a row goes in exactly when the page is valid, the value nonempty, the key new and slot and value fit |
| SlottedLeaves.InsertableIs | src/slotted_leaf_v2.c:215-258 | a row can be inserted exactly if its value is not empty, no slot has its key, and eight bytes and the value fit the free space |
| SlottedLeaves.InsertKeeps | src/slotted_leaf_v2.c:215-258 | an inserted row leaves a valid page with one more row in key order, all other rows unchanged, and as much less free space as slot and value take |
| SlottedLeaves.SlottedLeaf.Read | src/slotted_leaf_v2.c:260-281 | the value of the row with the key, exactly when there is one and it fits the buffer |
| SlottedLeaves.SlottedLeaf.Rebuild | src/slotted_leaf_v2.c:301-353 | a page is rewritten exactly when the edited rows fit, and then holds exactly them; otherwise nothing changes |
| SlottedLeaves.EditedIs | src/slotted_leaf_v2.c:301-353 | replacing or omitting a key changes its row and no other |
| SlottedLeaves.FilledHolds | src/slotted_leaf_v2.c:301-353 | rows in key order that fit fill a valid page that holds exactly them |
| SlottedLeaves.RoomForUpdate | src/slotted_leaf_v2.c:355-385 | the space test made before an update decides whether the rewritten page fits |
| SlottedLeaves.SlottedLeaf.Delete | src/slotted_leaf_v2.c:387-399 | a present key can always be deleted |
| SlottedLeaves.CompactGainsNothing | src/slotted_leaf_v2.c:401-410 | compacting a valid page keeps its rows and gains no free byte, because a valid page has no holes |
| LeafChains.LeafChain.Append | src/leaf_cursor_read.h:144-225 | a row is taken exactly when its key is larger than all before and its value fits the last page or an empty one; a rejected row changes nothing |
| LeafChains.HasRoomIs | src/leaf_cursor_read.h:144-225 | a page has room exactly if the slotted page would take the row |
| LeafChains.AppendedOk | src/leaf_cursor_read.h:144-225 | an accepted row leaves a valid chain |
| LeafChains.AppendedRows | src/leaf_cursor_read.h:144-225 | and stands behind all other rows, which stay as they were |
| LeafChains.CheckSlotted | src/slotted_leaf_v2.c:117-169 | exactly when the page is a leaf by its type, its body is a valid slotted page, and the keys the tree sees are those of its slots |
| LeafChains.ValidateChain | src/leaf_cursor_read.h:227-278 | exactly when every page is a valid slotted page, the pages are doubly linked in order, keys ascend across pages, only the first page may be empty, and the counters are right |
| LeafChains.LeavesInOrder | src/leaf_cursor_read.h:227-278 | in a valid chain all keys of an earlier page lie below those of a later one |
| StagingTree.PageNumbersValid | src/compact_v2_staging_hierarchy.h:88-108 | exactly when the numbers are nonzero, pairwise different and different from the leaf numbers |
| StagingTree.FindPage | src/compact_v2_staging_hierarchy.h:110-131 | the node carrying a page number, leaves first |
| StagingTree.CountInbound | src/compact_v2_staging_hierarchy.h:168-184 | how many child pointers name a page |
| StagingTree.CheckReachesRoot | src/compact_v2_staging_hierarchy.h:186-205 | exactly when parent links lead to the root in a bounded number of hops |
| StagingTree.CheckChildren | src/compact_v2_staging_hierarchy.h:260-291 | exactly when every child points back and carries, as its largest key, the ascending separator beside it |
| StagingTree.Validate | src/compact_v2_staging_hierarchy.h:207-308 | the validator computes the acceptance conditions, clause by clause |
| StagingSound.ChildOfOne | src/compact_v2_staging_hierarchy.h:234-307 | in an accepted hierarchy a page is a child of its parent once and of nobody else |
| StagingSound.AcceptedIsATree | src/compact_v2_staging_hierarchy.h:207-308 | an accepted hierarchy is a rooted tree: walking down from the root meets every leaf and internal page exactly once and nothing else |
| StagingSound.AcceptedIsLive | src/compact_v2_migration_live_page_guard.h:38-129 | copied into a file, an accepted hierarchy is a tree in the sense of the live-page walk |
| StagingDisorder.OrderIff | src/compact_v2_staging_hierarchy.h:168-308 | an accepted hierarchy keeps the leaves in chain order if and only if in every internal page the first row below each further child lies above the separator before it |
| StagingDisorder.LookupIff | src/compact_v2_staging_hierarchy.h:168-308 | every row of an accepted hierarchy is found by descending from the root if and only if the leaves are in chain order |
| StagingDisorder.SmallKeepsOrder | src/compact_v2_staging_hierarchy.h:168-308 | with at most 510 leaves, hence one internal page, an accepted hierarchy keeps the order |
| StagingDisorder.TwistedIsAccepted | src/compact_v2_staging_hierarchy.h:168-308 | with 511 leaves it need not: an accepted hierarchy whose first row is looked for in the second leaf |
| StagingLayout.InboundIs | src/compact_v2_staging_hierarchy.h:168-184 | in the layout of the builder every node but the root is named exactly once |
| StagingLayout.LaidIsAccepted | src/compact_v2_staging_hierarchy.h:207-308 | the layout of the builder meets every clause of the validator |
| StagingBuild.PlaceParent | src/compact_v2_staging_hierarchy.h:377-409 | one parent takes over its stretch of children: parents, cells, separators and right child are those of that stretch |
| StagingBuild.BuildLevel | src/compact_v2_staging_hierarchy.h:369-417 | one level over any number of nodes is laid completely, and its failure exits cannot be taken |
| StagingBuilder.DescribeLeaves | src/compact_v2_staging_hierarchy.h:346-361 | leaf descriptors carry page numbers and largest keys; only an empty first leaf is refused |
| StagingBuilder.BuildLevels | src/compact_v2_staging_hierarchy.h:363-422 | all levels are laid bottom-up, ending in one root after exactly the levels and pages computed in advance |
| StagingBuilder.Build | src/compact_v2_staging_hierarchy.h:310-442 | succeeds exactly for a valid chain of at least two non-empty leaves with enough fresh distinct page numbers; the result is laid out in levels and passes the validator; failure changes nothing |
| StagingOrder.LeavesInChainOrder | src/compact_v2_staging_hierarchy.h:346-417 | the in-order leaves of the built tree are the leaf chain |
| StagingOrder.DepthIsLevels | src/compact_v2_staging_hierarchy.h:410-431 | all leaves lie at depth `level_count` |
| StagingOrder.RoutingIsExact | src/compact_v2_staging_hierarchy.h:346-417 | descending by separators ends at the leaf between whose neighbours the key belongs, which for a stored key is the one leaf holding it |
| StagingOrder.FindChild | src/table.c:177-192 | binary search picks the leftmost child whose separator is not below the key |
| StagingOrder.FindLeaf | src/leaf_cursor_read.c:196-234 | a reader searching the file from the root of a built tree arrives at that leaf without an error |
| StagingPager.ClaimsLeave | src/compact_v2_staging_pager.h:21-69 | claimed pages are distinct, came from the free list or from past the end, and are no longer free |
| StagingPager.ClaimPages | src/compact_v2_staging_pager.h:21-69 | succeeds exactly in a transaction on a sound free list with room; the claims and the resulting file are determined |
| StagingPager.MatchingClaims | src/compact_v2_staging_pager.h:71-113 | matching claims name the nodes one for one |
| StagingPager.CheckClaimsMatch | src/compact_v2_staging_pager.h:71-113 | exactly when the hierarchy is accepted and the claims are its page numbers |
| StagingPager.Verify | src/compact_v2_staging_pager.h:123-166 | exactly when every claimed page is allocated and reads back as its image |
| StagingPager.Materialize | src/compact_v2_staging_pager.h:168-223 | exactly when all checks pass; then every node is on its page, every other page is as before, and precisely the claims became dirty |
| StagingPager.DirtySetIsExact | src/compact_v2_staging_durable.h:36-65 | exactly when the dirty pages are the claims |
| StagingPager.MakeDurable | src/compact_v2_staging_durable.h:67-139 | commits exactly when the transaction is this staged tree and nothing else; the disk then holds the staged image the protocol starts from |
| Lexer.PredicateParses | src/generic_predicate.c:174-189 | reading a printed predicate gives it back |
| Lexer.ParsedIsWellFormed | src/generic_predicate.c:138-189 | the parser yields only predicates over existing columns with literals of their type |
| Lexer.CharacterClasses | src/generic_predicate.c:6-20 | blanks, digits, letters and identifier characters by character code |
| BooleanSyntax.TestSpelled | src/generic_predicate.c:138-189 | a test reads back with any blanks, or none, around its parts and in any spelling of its names: `>=` is never taken for `>` |
| BooleanSyntax.WrittenIsRead | src/generic_boolean.c:20-94 | whatever is written by the grammar, with any blanks around operators, words and parentheses, any case and redundant parentheses, is read as the tree it stands for, up to where it ends |
| BooleanSyntax.ReadIsWritten | src/generic_boolean.c:20-94 | and whatever is read was written by the grammar and is the tree it stands for: nothing else is accepted |
| BooleanSyntax.NumberLimit | src/generic_predicate.c:61-73 | a number is read exactly up to 4294967295 |
| BooleanSyntax.NameLimit | src/generic_predicate.c:45-59 | a name is read exactly up to 31 characters |
| BooleanSyntax.TextLimit | src/generic_predicate.c:75-99 | a text is read exactly up to 256 characters, with quotes doubled |
| BooleanText.FormatRereads | src/generic_boolean.c:201-247 | the printed form of any well-formed expression reads back with the same meaning on every row and the same number of nodes |
| BooleanText.FormatIs | src/generic_boolean.c:160-247 | the printed form piece by piece: one blank around operators, parentheses where a node asks for them or OR stands inside AND |
| BooleanText.ParsedRereads | src/generic_boolean.c:20-94 | printing a parsed expression and parsing that gives the same tree |
| BooleanText.AndBindsTighter | src/generic_boolean.c:50-94 | AND binds tighter than OR on either side |
| BooleanNodes.MatchesIsTruth | src/generic_boolean.c:106-126 | evaluation by node index is the meaning of the tree |
| BooleanNodes.FlattenRepresents | src/generic_boolean.c:5-71 | the allocated nodes represent the parsed tree, children before parents |
| BooleanNodes.Buffer.AppendText | src/generic_boolean.c:138-156 | text is appended exactly when it and the terminator fit |
| BooleanNodes.FormatNode | src/generic_boolean.c:201-247 | succeeds exactly when the text and its terminator fit, and then appends the printed form |
| BooleanParser.Parser.OnePredicate | src/generic_predicate.c:174-189 | the cursor parser reads the predicate the grammar assigns to the text |
| BooleanParser.Expression.PrimaryNode | src/generic_boolean.c:20-48 | an operand is read exactly as the grammar says, as long as nodes are left |
| BooleanParser.Expression.Parse | src/generic_boolean.c:73-104 | parsing succeeds exactly when the grammar does and 64 nodes suffice; the array then holds the tree |
| BooleanParser.FormatAndReread | src/generic_boolean.c:73-104 | a parsed expression that is printed and parsed again gives the same nodes in the same places |
| ValueOrder.BeforeIs | src/generic_predicate.c:191-201 | numbers are ordered by size, texts by their first difference, a shorter one before its continuations |
| LikePatterns.Match | src/generic_predicate.c:203-221 | the matcher that tries suffix after suffix decides the pattern |
| LikePatterns.LikeLiteral | src/generic_predicate.c:203-221 | a pattern without wildcards matches itself only |
| LikePatterns.LikeCharacters | src/generic_predicate.c:203-221 | without a percent sign a pattern matches texts of its length, an underscore any character and any other itself |
| LikePatterns.LikeAround | src/generic_predicate.c:203-221 | a percent sign between two patterns stands for any text between a match of the one at the beginning and of the other at the end |
| IndexPlans.CheckTest | src/generic_predicate.c:223-247 | one test of a value, by three-way comparison or pattern |
| IndexPlans.MatchesIs | src/generic_predicate.c:223-247 | a test holds of a value of its type as its symbol is read, LIKE by pattern, and of no other value |
| Ranking.BestOfInsert | src/generic_index_stats.c:294-324 | keeping only the best entries before each insertion loses nothing |
| Ranking.Consider | src/generic_index_stats.c:294-324 | one step of the in-place selection |
| Frequencies.RunsAreTrue | src/generic_index_stats.c:549-569 | the runs of a sorted column are its maximal stretches and cover it |
| Frequencies.RunCounts | src/generic_index_stats.c:549-569 | a run tells exactly how many rows hold its value and how many are not above it |
| Frequencies.CollectRuns | src/generic_index_stats.c:549-569 | after all runs the array holds exactly the best of them, by frequency and then by value |
| Statistics.BuildStats | src/generic_index_stats.c:525-588 | statistics describe the sorted column: total, distinct values, the best sixteen runs and up to thirty-three evenly spaced samples |
| KeptRuns.KeptAreTrue | src/generic_index_stats.c:553-569 | kept entries are true runs with true frequencies, as many as are kept or all there are |
| KeptRuns.KeptAreBest | src/generic_index_stats.c:286-292 | no run left out is better than a kept one |
| KeptRuns.KeptComeFirst | src/generic_index_stats.c:286-292 | the kept values are the most frequent ones, and among equally frequent ones the smallest |
| Statistics.RankIs | src/generic_index_stats.c:571-584 | every row is a sample up to thirty-three; beyond, thirty-three samples at even ranks, rounded down |
| Statistics.RankStep | src/generic_index_stats.c:571-584 | neighbouring samples are at most ceil((n-1)/32) rows apart |
| Statistics.EstimateLessEqual | src/generic_index_stats.c:661-708 | the estimate of the rows not above a value is off by at most ceil((n-1)/32) - 1, exact for kept values and outside the column, and otherwise one more than the rank between the two samples around the value, in proportion for numbers and half way for texts, rounded down |
| KeptRuns.OthersAreRarer | src/generic_index_stats.c:286-292 | a value that was not kept is no more frequent than any kept one |
| Statistics.EstimateEqual | src/generic_index_stats.c:630-659 | exact for kept values, outside the range of the column, and in columns with at most sixteen values; otherwise the rows not kept per value not kept, rounded up, which is off by at most the smallest kept frequency; zero only for values that do not occur |
| Statistics.EstimatePredicate | src/generic_index_stats.c:710-734 | every comparison has an error bound against the true number of rows: `<=` and `>` that of the samples, `<` and `>=` that plus the smallest kept frequency; kept values are exact; `<=` and `>`, and `<` and `>=`, add up to the column, and `<` is `<=` less `=` or zero |
| Conjunctions.BoundsDecide | src/generic_index_stats.c:761-846 | the tightest lower and upper bound decide a range conjunction |
| Conjunctions.MatchingInterval | src/generic_index_stats.c:761-846 | the rows of a range are the rows up to the upper bound less those up to the lower one |
| Conjunctions.EstimateConjunction | src/generic_index_stats.c:761-846 | contradictory tests give zero, which is right; every other supported conjunction errs by at most twice the worst single error, a `>`/`<=` range by twice the sample gap; an equality of known frequency is exact; the estimate is that of the equality, or what the tightest two bounds leave of the column |
| PairStatistics.BuildPairStats | src/generic_index_correlation.c:386-440 | the kept pairs are exactly the best thirty-two runs of the sorted pairs, with true frequencies |
| PairStatistics.EstimatePair | src/generic_index_correlation.c:648-670 | exact for kept pairs, and for all pairs where at most thirty-two occur; any other estimate is the rows not kept per pair not kept, rounded up, at most the least kept frequency and off by at most that; zero only for pairs that do not occur |
| IndexBounds.ImageMembers | src/generic_index_candidates.c:286-353 | the sorted image lists every row of the table once |
| IndexBounds.ImageAscends | src/generic_index_candidates.c:286-353 | the image is ordered by value and, where equal, by primary key |
| IndexBounds.LowerBound | src/generic_index_candidates.c:605-618 | the first entry not below the value |
| IndexBounds.UpperBound | src/generic_index_candidates.c:620-633 | the first entry above the value |
| IndexBounds.PredicateBounds | src/generic_index_candidates.c:635-659 | the entries that meet one ordered test are exactly those between the bounds |
| IndexBounds.ConjunctiveBounds | src/generic_index_candidates.c:702-723 | so are the entries that meet all tests of the column |
| IndexBounds.CollectCandidates | src/generic_index_candidates.c:780-849 | the collected keys are those of the entries that meet all tests, each once |
| IndexPlans.SortIds | src/generic_index_intersection_sql.c:451-458 | the keys in ascending order, none lost |
| IndexPlans.IntersectIds | src/generic_index_intersection_sql.c:460-480 | the common keys move to the front of the first list, in order |
| IndexPlans.Emit | src/generic_index_intersection_sql.c:620-663 | fetch, filter again, count, skip and stop: LIMIT and OFFSET of the matching rows |
| IndexPlans.HitsAreTheScan | src/generic_index_intersection_sql.c:620-655 | candidate keys that include all matching rows give exactly the rows of a scan |
| AnchorPlans.ExecuteAnchor | src/generic_index_anchor_v2_sql.c:458-533 | LIMIT and OFFSET of the matching rows in the order of the index; the rows of the scan if the window keeps all or none, always as many rows and the same COUNT |
| AnchorPlans.IndexOrderIs | src/generic_index_anchor_v2_sql.c:458-533 | the order of the index: by the value of the column and, where equal, by primary key |
| AnchorPlans.AnchorWindowIff | src/generic_index_anchor_v2_sql.c:458-533 | over all tables with n matching rows and all queries routed to this plan, it returns the rows of the scan if and only if LIMIT and OFFSET keep all n of them or none |
| AnchorPlans.LimitOneDiffers | src/generic_index_anchor_v2_sql.c:404-533 | two rows, a routed query of two tests and LIMIT 1 for which the scan and the anchor plan return different rows |
| IndexPlanner.ChooseSources | src/generic_index_intersection_sql.c:179-210 | one source per indexed column with a sortable test, exactly when there are two to sixteen such columns |
| IndexPlanner.SortSources | src/generic_index_intersection_sql.c:257-272 | a permutation in ascending order of estimates |
| IndexPlanner.SurvivorsFit | src/generic_index_cost.h:19-38 | with sources no larger than the table the estimate never exceeds the smallest source and the 64-bit products never wrap |
| IndexPlanner.WrapMatters | src/generic_index_cost.h:19-38 | beyond the table size they can: three estimates for a table of one row whose product wraps to less than it is |
| IndexPlanner.CostIs | src/generic_index_cost.h:19-38 | for sources no larger than the table the cost is one per index entry and four per estimated survivor |
| IndexPlanner.ApplyCostModel | src/generic_index_intersection_sql.c:274-352 | no source is lost or invented; an empty source comes first; otherwise they ascend and the plan is used exactly when its cost, in 64-bit arithmetic, is at most five per candidate of the smallest source and three per row of the table |
| IndexPlanner.PlanIntersection | src/generic_index_intersection_sql.c:274-352 | a taken plan reads each usable indexed column once; two to sixteen of them without estimates, or with an empty one, are always taken, otherwise exactly when an intersection costs no more than an anchor at the smallest source or a scan |
| IndexPlanner.AnchorAtIs | src/generic_index_anchor_v2_sql.c:159-232 | there is an anchor at the first sortable test of every indexed column but the key whose estimator answers, with its estimate, whether any test of the column is an equality, and how many sortable tests it has |
| IndexPlanner.FindBest | src/generic_index_anchor_v2_sql.c:233-322 | the first of the best estimated anchors: fewest candidates, then an equality, then most tests |
| IndexPlanner.ChooseAnchor | src/generic_index_anchor_v2_sql.c:210-322 | the best anchor if five per candidate are no more than three per row of the table; without estimates the first equality or else the first indexed test |
| CachedPlans.SourceKeys | src/generic_index_intersection_sql.c:500-537 | the candidates of one source, whether its image was cached or rebuilt: the keys whose column meets every test of it, ascending |
| CachedPlans.CollectIntersection | src/generic_index_intersection_sql.c:489-568 | the keys every source admits, in ascending order and whatever the order of the sources, although no source is read once nothing is left in common; the number of sources read is determined |
| CachedPlans.ExecuteIntersection | src/generic_index_intersection_sql.c:605-663 | the rows of scan, filter, drop and take in primary-key order, for any choice and order of sources; COUNT likewise |
| CachedPlans.RunIntersection | src/generic_index_intersection_sql.c:605-663 | whatever the estimators answer and whatever the cache holds, a completed intersection plan returns what a scan returns, inside a transaction as outside |
| CachedPlans.RunAnchor | src/generic_index_anchor_v2_sql.c:324-533 | the same for the anchor plan, up to the order of the index |
| CachedPlans.DifferenceIsReached | src/generic_index_anchor_v2_sql.c:210-231 | without estimates the planner itself takes the anchor on which `AnchorPlans.LimitOneDiffers` shows the difference |
| EpochCache.FenceIff | src/generic_index_epoch.c:393-401 | a new epoch shuts out every older snapshot, except that the wrap at the largest epoch does so exactly when all of them are older than the seed |
| EpochCache.WrapAcceptsStale | src/generic_index_epoch.c:396-397 | a wrap that repeats an old seed makes a stale snapshot acceptable |
| EpochCache.ReachStaleRead | src/generic_index_epoch.c:380-402 | from a new database, by reads and row changes alone, to a read that returns what the table held before its last change |
| EpochCache.Store.Crash | src/generic_index_epoch.c:101-111 | a crash leaves a directory whose accepted snapshots still match the committed tables |
| EpochCache.Store.Purge | src/generic_index_epoch.c:186-214 | each removal is durable before the next; success means no snapshot is left |
| EpochCache.Store.EpochCurrent | src/generic_index_epoch.c:350-378 | an existing epoch is returned unchanged; a lost one is replaced only after all snapshots are gone |
| EpochCache.Store.BeforeMutation | src/generic_index_epoch.c:380-402 | the epoch becomes the next number, the seed after the largest 64-bit number, or one more than the seed where there was none; nothing happens for a table without an index; success on an indexed table means that no snapshot any crash could leave would be accepted, unless the largest epoch is followed by a seed not above every snapshot |
| EpochCache.Store.Mutate | src/generic_index_record_guard.c:521-569 | the fence precedes the change, so every directory a crash could leave matches the committed tables before and after, with the same exception |
| EpochCache.Store.ReadSnapshot | src/generic_index_candidates.c:528-589 | the entries are the sorted image of the table as the reader sees it; a snapshot is loaded exactly when it carries the epoch outside a transaction |
| PageOwnership.ValidateFreeList | src/diagnostics.c:544-564 | exactly when the free list is in range and without duplicates |
| PageOwnership.OwnershipCheck.Claim | src/diagnostics.c:445-542 | a claim succeeds exactly when a well-formed tree of unowned, allocated pages hangs there; success or not, precisely the reachable pages get an owner and references are counted |
| PageOwnership.ClaimTables | src/diagnostics.c:606-612 | after all tables a page is owned exactly when reachable, by the first table that reaches it |
| PageOwnership.CountOrphans | src/diagnostics.c:614-623 | the pages neither free nor owned |
| PageOwnership.PagesAreConserved | src/diagnostics.c:566-639 | with a sound free list reachable, free and orphan pages make up the file |
| PageOwnership.PassIsPartition | src/diagnostics.c:566-639 | all claims succeed without an orphan exactly when the trees and the free list partition the file |
| PageOwnership.CheckOwnership | src/diagnostics.c:566-639 | owned + free + orphan = total after every check with a sound free list; the check passes exactly when each page is free or in one place of one table; shared pages are those named twice |

## Left out

- SlottedLeaves.SlottedLeaf.Validate: the slot directory is a list of records, not bytes, and flags are not modelled; the page type is checked by `LeafChains.CheckSlotted`.
- PagerReclaim.TreeReclaim: a failed reclaim may have freed some pages; that this is undone is stated by the attempt that rolls it back.
- ManifestCodec.OneByteIsNoticed: covers changes within one byte, not longer bursts.
- PageOwnership.CheckOwnership: the wording of the first message is not modelled.
- Opening, syncing, renaming and removing files are durable steps that may fail; paths, handles and platform branches are not modelled.
- The SQL front end, projections and the text of plans and messages; select statements start from parsed predicates, limits and offsets.
- Inserting into, splitting and deleting from B+ trees in normal operation; such work appears in the step machine as any change that keeps the catalog sound.
- Statistics, pair and snapshot files: writing them, reading them back, fingerprints and checksums.
- The write-ahead log, the page cache, savepoints and the on-disk free list below the pager.
- Real threads, locks, failing allocations and null arguments.
- Creating and dropping indexes, and the earlier index executors with version-1 files.
- OR plans over indexes, pairwise plan selection, benchmarks and profile counters.
- The staging tree with a single internal level, which the hierarchy builder subsumes.
- The earlier recovery classifier (src/compact_v2_migration_manifest.h:234-251), superseded by the strict one.
