# A Dafny model of segstore

segstore is a single-writer, LSM-style store of immutable segments. A write is logged,
synced and applied to a buffer; a full buffer is sealed into a segment; merges rewrite
segments; a checkpoint writes segment files and then one manifest, the commit point. What
a copy of an item *means* is spread over four structures (`tombstones`, `superseded`,
`owners`, `buffer_ids`), and the disk can fail or lose its unsynced tail between any two
steps.

This project models that store in Dafny and proves that it is a map from ids to items:
every operation is a map update or leaves the map alone, over every run with failed disk
actions, crashes and reopenings anywhere in it. Around that core it proves the tier
selection (geometric growth, write amplification, the bucket partition), the sidecar
envelope and cache, and the inverted-index example.

`dafny verify dfyconfig.toml` checks everything.

## How the model is built

| file | what it holds |
| --- | --- |
| `Base`, `Memory` | ids, items, operations and the reference map; the writer's in-memory fields as a value, what they mean (`Represents`), and their invariant (`MemInv`) |
| `Refinement`, `Merging`, `Recovery` | applying, sealing, merging any group, rebuilding `owners` on open, replaying the log |
| `Legacy` | what the scan of `open` makes of any manifest that names each segment once, also one that does not record superseded copies |
| `Disk`, `Protocol`, `Safety`, `Theorems` | manifest, write-once segment files and epoch-numbered logs; eighteen kinds of step, among them refused and half-effective disk actions, a crash, and removed files that a crash brings back; the invariant each step keeps; what holds of every run |
| `Witnesses` | from which states `add` can err after adding |
| `Storage`, `Store` | the directory and the store as objects whose fields change in place, one method per source method, each proved against the functions above; every disk action and memory change is a step of the protocol |
| `Sorting`, `Tiering`, `TierTheorems`, `Compaction`, `Counting`, `Ingest` | tier selection as loops and as functions, the compactions, live counts, and whole ingest runs |
| `Envelope`, `Names`, `SortedIds`, `Sidecar` | byte framing, file names, canonical id lists, and the sidecar cache |
| `InvertedIndex`, `IndexRuns` | the index example and the store over it |

The class `SegmentedStore` and the state machine of `Protocol` describe the same steps. The
directory object carries the events so far as ghost state and proves them a legal run
(`Storage.Directory.Invariant`), so a theorem about all legal runs is a theorem about
every program that opens the store, calls its methods, crashes it with `Directory.Fail`
and opens it again. `Rec.must` marks an operation whose log record was synced; a method
that returns `Done` for a write proves that mark, and `Theorems.AcknowledgedSurvives`
says of every marked operation that no later step or crash loses it.

A disk action succeeds, or is refused with no effect, or is refused although the effect
took place; which one is not known to the caller. The directory counts refusals (`faults`)
and best-effort removals that did not happen (`skips`). So the methods also prove that a
call fails only if the store was poisoned, its log was dead, or an action of this very call
was refused, and that garbage collection is complete when nothing was skipped. Reads of the
manifest, a segment or the log can be refused too; opening then changes nothing. A removal
need not be durable: a crash may bring back any removed segment file and any older log.

### What is taken for granted

- A file is written atomically; the manifest and segment encodings round-trip; a manifest
  or segment file that is read is read as written. A refused read stands for any I/O error.
- Reading the log returns a prefix of the appended records that contains every synced one.
- After a failed append or sync the log writer refuses every further append until a
  checkpoint starts a new log.
- A manifest write that was refused with its effect present is durable from then on: a crash
  does not take it back.
- Segments list their ids and count their items, as `DefaultStore` does; the inverted
  index is modelled on its own because it does not.
- There is one writer and its calls are sequential; a view is a snapshot.
- Item counts and ids are unbounded naturals; the tier band, averages and ratios are reals.
- The envelope's CRC is an arbitrary function of the bytes it covers.

### Where the code and its documentation differ

- `src/lib.rs:1977-1979` says a refused segment write leaves the store exactly as it was.
  The id of the refused output is already allocated and stays consumed.
  `Store.SegmentedStore.MergeSegmentsAt` states this: on failure memory is the old memory
  with the next id advanced, and nothing else.
- An error from `add` does not always mean that the item was not added: it is logged, synced
  and applied before the merges it triggers can fail. What decides is a guard that a caller
  can evaluate beforehand, `Compaction.MergeDue` on the state with the item applied, together
  with auto-compaction: the add fills the buffer, and sealing it makes a tier eligible. Unless
  it holds, so always with auto-compaction off, an error leaves memory as it was
  (`Store.SegmentedStore.AddItem`). From every state in which it holds there is a run in which
  the add errs with the item durable and in the map (`Witnesses.AddErrsAfterAdding`), and such
  states are reached (`Witnesses.DueAfterOne`). The kinds of error, `LogFailed` and the others,
  are labels of the model.
- `reclaim_tombstones` cannot meet a ratio above one unless the store is empty:
  `Counting.ReclaimExactly` proves the condition in both directions, and
  `Counting.ReclaimAtTwo` shows the smallest failing input.
- A manifest of the original layout can carry a tombstone whose sealed copy `open` skips
  without marking it (`src/lib.rs:1568-1571`); a later add of the id then revives that copy.
  `Legacy.DeletedCopyReturns` shows this for every such manifest, and
  `Legacy.OpenedActsAsMap` that the store opened from any other behaves as a map for ever.
- A store that does not list ids keeps a sealed document under its old terms after a
  re-add (`src/lib.rs:1709-1711`). `IndexRuns.ReaddKeepsOldTerms` shows it on a concrete
  run, and `IndexRuns.AddScansIff` says for every add exactly when it happens.

## Model

| member | source | states |
|---|---|---|
| Memory.LiveIffOwned | src/lib.rs:1034-1041 | under the invariant a sealed copy passes `is_live_in` exactly when `owners` names its segment for the id |
| Memory.VisibleUnique | src/lib.rs:1701-1711 | no two copies of one id are visible at once, buffered or sealed |
| Memory.HoldsAMap | src/lib.rs:1034-1041 | whatever its tables, a consistent memory represents some map |
| Refinement.SupersedeKeeps | src/lib.rs:1799-1804 | superseding keeps every sealed copy either owned or superseded, never both |
| Refinement.ApplyBuffer | src/lib.rs:1774-1797 | the buffer keeps one entry per id, the newest, and `buffer_ids` lists exactly these |
| Refinement.ApplyRefines | src/lib.rs:1774-1797 | after an operation the live sealed copies and the buffer are the updated map; the invariant holds |
| Refinement.SealRefines | src/lib.rs:1824-1844 | sealing the buffer changes no map entry and keeps ids in step |
| Refinement.ReplayRefines | src/lib.rs:1665-1673 | replaying a log folds its operations over the map, in order |
| Merging.MergedIsLive | src/lib.rs:1989-2014 | both merge paths output the same thing: the live copies of the group, in order |
| Merging.MergedContents | src/lib.rs:1989-2014 | the output holds exactly the live copies of the group, one per id, no dead copy |
| Merging.ReplaceOwners | src/lib.rs:2041-2056 | `owners` is redirected exactly for the ids of the output |
| Merging.SwapRefines | src/lib.rs:2022-2060 | swapping any set of distinct segments for their merge keeps the map and the invariant |
| Merging.MergeGroupRefines | src/lib.rs:1983-2060 | `merge_group` on any set of distinct indices preserves the map, wherever stale and live copies lie |
| Recovery.RebuildOwners | src/lib.rs:1559-1581 | the nested scan of `open` computes the scan's specification, refusing two live copies in one segment |
| Recovery.RebuildExact | src/lib.rs:1559-1581 | on a checkpoint of a consistent store the scan never refuses and finds exactly its `owners` |
| Recovery.ReplayIsLiveRun | src/lib.rs:1665-1673 | replay checks the threshold after deletes too, yet reaches the live state field by field |
| Recovery.SealsWhenFull | src/lib.rs:1717-1720 | without auto-compaction a write changes no segment until the buffer is full, and then appends the whole buffer as one |
| Recovery.RunSealsWhenFull | src/lib.rs:1717-1720 | over every run of writes the buffer stays below the threshold and each new segment holds exactly that many items |
| Legacy.ScanResult | src/lib.rs:1562-1581 | for any manifest that names each segment once, the scan refuses exactly when one segment holds two live copies of an id; otherwise a copy is live afterwards exactly when its segment owns the id |
| Legacy.NewestWins | src/lib.rs:1559-1561 | of duplicates across segments that a manifest leaves live, exactly the newest stays live |
| Legacy.OpenedIff | src/lib.rs:1562-1581 | the invariant holds of the opened store if and only if every sealed copy of a tombstoned id was recorded as superseded |
| Legacy.DeletedCopyReturns | src/lib.rs:1568-1571 | from every manifest with an unmarked copy of a tombstoned id there is an add after which two items are visible under one id |
| Legacy.OpenedActsAsMap | src/lib.rs:1562-1581 | every later log folds over one map if and only if every sealed copy of a tombstoned id was recorded as superseded |
| Legacy.UnmarkedExample | src/lib.rs:1568-1571 | the smallest manifest that does not meet this |
| Disk.LoadSaved | src/lib.rs:1539-1581 | loading a checkpoint gives back the identical memory that was checkpointed |
| Disk.ExactReplay | src/lib.rs:1587-1673 | recovery equals the live run over the checkpoint, field by field |
| Safety.AppendKeeps | src/lib.rs:1712-1717 | appending a record, successful, lost or half-effective, keeps the protocol invariant |
| Safety.SyncKeeps | src/lib.rs:1816-1821 | syncing the log, successful or not, keeps the protocol invariant |
| Safety.ApplyKeeps | src/lib.rs:1717-1717 | applying a logged record keeps memory equal to the fold of the applied history |
| Safety.SwapKeeps | src/lib.rs:2015-2060 | swapping in a merge output whose file is written keeps files and memory in agreement |
| Safety.PurgeRefines | src/lib.rs:1898-1902 | with no dead copy left, clearing both tables changes no one's liveness |
| Safety.WriteSegmentKeeps | src/lib.rs:2064-2075 | a segment write, refused or not, never touches a file the manifest could name |
| Safety.CommitSaves | src/lib.rs:2282-2302 | a manifest over persisted segments saves exactly the memory, with an empty log |
| Safety.CommitCovers | src/lib.rs:2282-2302 | every synced operation is in the memory the manifest commits |
| Safety.CommitKeeps | src/lib.rs:2303-2316 | the manifest write keeps the invariant however it ends |
| Safety.RemoveSegmentKeeps | src/lib.rs:1853-1876 | removing an unnamed segment file, between any two steps, keeps every loadable state |
| Safety.RemoveLogKeeps | src/lib.rs:1596-1612 | removing a log of another epoch keeps the invariant |
| Safety.CrashKeeps | src/lib.rs:2244-2251 | a crash that loses any unsynced part of the log keeps the invariant |
| Safety.ReviveKeeps | src/lib.rs:239-249 | a removed segment file or an older log that a crash brings back disturbs nothing that recovery reads |
| Safety.OpenKeeps | src/lib.rs:1539-1673 | opening what a run left behind establishes the writer's invariant again |
| Safety.StepKeeps | src/lib.rs:2256-2325 | each of the eighteen kinds of step keeps the invariant |
| Theorems.Reachable | src/lib.rs:2266-2320 | after every step of every run: named segments exist as sealed, persisted ids match memory, no log is newer than the manifest, memory is the fold of its history |
| Theorems.ManifestAscends | src/lib.rs:1263-1266 | the ids in the manifest on disk ascend in every run |
| Theorems.RecoverSelects | src/lib.rs:1508-1675 | recovery from any crash folds a selection of the issued operations that omits no synced one and invents none |
| Theorems.CrashRecovery | src/lib.rs:1508-1675 | the same from the end of every legal run: recovery never fails and yields such a map |
| Theorems.SyncedForever | src/lib.rs:1816-1821 | a synced operation stays required by every later recovery |
| Theorems.AcknowledgedSurvives | src/lib.rs:1508-1675 | an operation synced at any point of a run is in the map recovered after any continuation and any crash |
| Theorems.NewManifestRecovers | src/lib.rs:2303-2311 | the manifest just written recovers the map in memory |
| Theorems.OldManifestRecovers | src/lib.rs:2303-2311 | the old manifest with its log recovers the map in memory followed by the unapplied records |
| Theorems.AmbiguousCommit | src/lib.rs:2303-2311 | if the manifest write fails, either manifest gives the same map up to operations that returned an error |
| Theorems.PoisonedForGood | src/lib.rs:1806-1813 | a poisoned store acknowledges nothing and never moves the commit point until it is reopened |
| Theorems.ReadersAgree | src/lib.rs:1083-1107 | a fresh catalog shows the map of the operations the manifest covers, and so does a fresh view outside a failed or unfinished checkpoint |
| Theorems.NamedForever | src/lib.rs:1847-1851 | what a manifest ever named keeps its contents in the bookkeeping of all later runs |
| Theorems.IdsNeverReused | src/lib.rs:1847-1851 | an id named by a manifest never denotes other contents on disk in any continuation |
| Theorems.CommitInStep | src/lib.rs:2313-2316 | right after a checkpoint, reopening gives the identical memory |
| Theorems.WriteInStep | src/lib.rs:1712-1770 | each further add, extended item or delete keeps that |
| Theorems.ExactReplayRun | src/lib.rs:1665-1673 | exact replay over whole runs of writes after a checkpoint, with the same threshold |
| Sorting.SortSorts | src/lib.rs:2105-2127 | the sort by a key puts candidates, buckets and members in ascending order |
| Sorting.SortIsPermutation | src/lib.rs:2105-2127 | it neither loses nor repeats an element |
| Sorting.SortIsStable | src/lib.rs:2105-2127 | elements with equal keys keep their order, for every key |
| Tiering.FirstFit | src/lib.rs:2111-2119 | the first bucket whose band admits the size, or none |
| Tiering.BucketizeInPlace | src/lib.rs:2107-2120 | the bucketing loops build the first-fit buckets |
| Tiering.TakeMembers | src/lib.rs:2127-2139 | the taking loop selects the specified prefix, smallest first, within both caps |
| Tiering.NextMergeGroup | src/lib.rs:2084-2145 | the loops of `next_merge_group` compute the selection, over real sizes, that `TierTheorems.SelectExact` describes |
| TierTheorems.GroupBounds | src/lib.rs:2084-2145 | a selected group has between `min_merge` and `max_merge` distinct unfrozen segments of at most `max_merged_len` items together |
| TierTheorems.EligibleExact | src/lib.rs:2089-2101 | the candidates are exactly the segments of at most half the cap, with their sizes raised to the floor |
| TierTheorems.PlaceExact | src/lib.rs:2109-2120 | for any band: a candidate joins the first bucket whose band holds its size, whose average becomes the mean, or opens its own |
| TierTheorems.SelectExact | src/lib.rs:2121-2144 | no tier is missed: the answer is `None` exactly if no bucket has `min_merge` members that fit both caps; otherwise it is the longest run of smallest members that they allow from such a bucket with the least average |
| TierTheorems.RawSortKeepsSizes | src/lib.rs:2127-2127 | raw-size order refines floored-size order: re-sorting a bucket leaves its list of floored sizes |
| TierTheorems.BucketizeOk | src/lib.rs:2110-2120 | in every bucket the average is the mean and each member joined below `bucket_high` times the mean before it |
| TierTheorems.GeometricGrowth | src/lib.rs:2105-2143 | the floored sizes of a selected group of k sum to more than `1 + (k-1)/bucket_high` times each of them |
| TierTheorems.OnlyLastJoins | src/lib.rs:2110-2120 | with `bucket_low < 1` the scan over all buckets only ever joins the last one opened |
| TierTheorems.BucketizePartition | src/lib.rs:2105-2120 | the buckets are consecutive runs of the sorted list, each closed to later sizes |
| TierTheorems.BucketsAreRuns | src/lib.rs:2105-2121 | buckets flatten to the sorted eligible list, averages are means and ascend, so the bucket sort changes nothing |
| Compaction.MergeCount | src/lib.rs:2022-2060 | a merge of k segments removes k and adds at most one: the termination measure |
| Compaction.MergeShape | src/lib.rs:2022-2060 | a merge leaves the other segments in order under their ids; its output, if any, comes last under the next id |
| Compaction.TierLoopOk | src/lib.rs:1920-1935 | `compact_tiers` terminates, preserves the map, leaves no bucket with a merge that both caps allow, and leaves frozen segments in place under their ids |
| Compaction.TierLoopRuns | src/lib.rs:1926-1929 | `compact_tiers` is a run of merges, each of the smallest usable tier of the state before it, that ends where none is usable; merges and items written are counted |
| Compaction.AutoAddRuns | src/lib.rs:1717-1724 | with auto-compaction an add changes no segment until the buffer is full; then it is sealed and such a run follows |
| Compaction.TierMergeCapped | src/lib.rs:2127-2143 | the output of a tier merge has at most `max_merged_len` items |
| Compaction.TierLoopCapped | src/lib.rs:1920-1935 | after `compact_tiers` every segment is an old one or within that cap |
| Compaction.ForceLoopOk | src/lib.rs:1945-1972 | `force_merge_to(n)` with n >= 2 started above n ends with n or n-1 segments and the same map |
| Compaction.ForceGroupExact | src/lib.rs:1956-1966 | each merge takes the smallest segments, the older first among equals, one more than there are too many, within the width and what there is |
| Compaction.ForceLoopRuns | src/lib.rs:1953-1969 | `force_merge_to` is a run of such merges that stops as soon as there are few enough |
| Compaction.MergeAllLive | src/lib.rs:1890-1902 | after merging everything no copy is tombstoned or superseded |
| Compaction.CompactOk | src/lib.rs:1883-1906 | `compact` preserves the map and leaves at most one segment and empty tables |
| Compaction.CompactSettles | src/lib.rs:1883-1906 | a second `compact` rewrites nothing |
| Counting.LiveTotalIsSize | src/lib.rs:2169-2181 | live counts over the segments plus the buffer are the size of the map |
| Counting.LiveSetChange | src/lib.rs:2401-2428 | an add or delete takes the id out of the live set of the segment that owns it and changes no other segment's live set |
| Counting.SpaceAmplification | src/lib.rs:2169-2186 | the scan returns stored over live, with its two degenerate cases, and no answer exactly when some segment has no live count |
| Counting.AmplificationOk | src/lib.rs:2169-2186 | amplification times the size of the map is what is stored; it is at least one, one exactly when only the map is stored, infinite exactly when only dead data is |
| Counting.CompactStoresTheMap | src/lib.rs:1883-1906 | after `compact` the stored length is the size of the map |
| Counting.FindTargets | src/lib.rs:2202-2220 | the scan of `reclaim_tombstones` finds exactly the segments with fewer live items than the ratio asks for, or that some segment with items has no live count |
| Counting.ReclaimMerges | src/lib.rs:2194-2231 | `reclaim_tombstones` seals and merges exactly those segments, if any |
| Counting.ReclaimOk | src/lib.rs:2194-2231 | with a ratio of at most one no segment is below it afterwards, and the map is preserved |
| Counting.ReclaimExactly | src/lib.rs:2194-2231 | no segment is left below the ratio if and only if the ratio is at most one or the store is empty |
| Counting.ReclaimAtTwo | src/lib.rs:2194-2231 | after a single add, reclaiming at ratio two leaves a segment below it |
| Ingest.TrackedIsAdd | src/lib.rs:1712-1725 | the instrumented add is the store's add |
| Ingest.OutputGrown | src/lib.rs:2105-2143 | a tier merge's output outgrows its most rewritten input by the growth factor and stays within the cap |
| Ingest.RegroupWork | src/lib.rs:1926-1929 | the items a merge writes are paid for by the higher rank of its output |
| Ingest.RegroupBalanced | src/lib.rs:1926-1929 | a tier merge keeps the balance of sizes, ranks and items moved, and loses no item |
| Ingest.IngestRunning | src/lib.rs:1712-1725 | over every run of adds of distinct ids: nothing is lost, sizes and ranks stay balanced |
| Ingest.WriteAmplification | src/lib.rs:1920-1935 | all tier merges of N adds write at most N*c items for every c with floor * g^(c+1) above the cap; an item rewritten k times sits in a segment of at least floor * g^k items |
| Ingest.BoundExists | src/lib.rs:2105-2143 | such a c always exists, because the growth factor is above one |
| Storage.Directory.Invariant | src/lib.rs:2266-2320 | the directory's recorded events are a legal run, so the protocol invariant holds of its files |
| Storage.Directory.PutSegment | src/lib.rs:2064-2072 | an atomic file write that succeeds, or is refused with or without its effect |
| Storage.Directory.AppendRecord | src/lib.rs:1714-1715 | a log append that succeeds, or is refused with or without its effect |
| Storage.Directory.Fail | src/lib.rs:2244-2251 | the process dies: any unsynced part of the log may go, and any removed segment file or older log may be back |
| Storage.Directory.ReadManifest | src/lib.rs:1539-1539 | a read answers with the file or is refused |
| Storage.Directory.ReadSegment | src/lib.rs:1545-1545 | the same for a segment file, which may be missing |
| Storage.Directory.ReadLog | src/lib.rs:1587-1594 | the same for a log; no file reads as no records |
| Storage.Directory.CatalogNames | src/lib.rs:1263-1273 | binary search in the manifest finds exactly the ids it names |
| Store.SegmentedStore.SupersedeSealedCopy | src/lib.rs:1799-1804 | the in-place update equals the specification |
| Store.SegmentedStore.ApplyOp | src/lib.rs:1774-1797 | the in-place update of five fields equals the specification that refines the map |
| Store.SegmentedStore.FlushBuffer | src/lib.rs:1824-1844 | the in-place seal equals the specification |
| Store.SegmentedStore.LoadCheckpoint | src/lib.rs:1539-1581 | loading the manifest and its files equals the specification, with its two refusals, or a read was refused |
| Store.SegmentedStore.CollectLeftovers | src/lib.rs:1596-1634 | garbage collection on open, every removal best effort, changes nothing recovery reads; if none is skipped, only the manifest, its log, its segments and their sidecars are left, and no temporary file |
| Store.SegmentedStore.ReplayLog | src/lib.rs:1665-1673 | the replay loop equals the specification |
| Store.SegmentedStore.OpenStore | src/lib.rs:1508-1675 | from any directory a run can leave, open succeeds with the recovered memory and a selection of the history, unless a read is refused, and then nothing has changed |
| Store.SegmentedStore.CrashAndOpen | src/lib.rs:1508-1675 | kill the process whatever it was doing and open again: unless a read is refused, memory represents the in-order fold of issued operations that leaves out none that was acknowledged |
| Store.SegmentedStore.PersistSegment | src/lib.rs:2064-2075 | a segment is recorded as persisted only if its file holds it |
| Store.SegmentedStore.MergeSegmentsAt | src/lib.rs:1983-2060 | on success memory is the merge; on a refused write it is the old memory but for the allocated id |
| Store.SegmentedStore.PersistAll | src/lib.rs:2266-2280 | on success every current segment is persisted before the manifest names it |
| Store.SegmentedStore.PruneSuperseded | src/lib.rs:2285-2286 | only current segments are recorded as superseded, so pruning changes nothing |
| Store.SegmentedStore.CollectGarbage | src/lib.rs:1856-1876 | collection after a commit keeps the checkpoint exactly as committed and the sidecars of current segments; if nothing is skipped the old log is gone and only named segments and their sidecars are left |
| Store.SegmentedStore.CommitManifest | src/lib.rs:2282-2316 | either memory is exactly what the manifest saves under the next epoch, or the store is poisoned |
| Store.SegmentedStore.Checkpoint | src/lib.rs:2256-2325 | success makes the sealed memory the commit point with an empty log, publishes it and collects what it replaced; a failed manifest write poisons; the map never changes; it fails only on a refused action or a poisoned store |
| Store.SegmentedStore.Republish | src/lib.rs:1691-1699 | the published view becomes the checkpointed memory |
| Store.SegmentedStore.RunTiers | src/lib.rs:1926-1929 | the merge loop terminates in the specified state and counts the items moved |
| Store.SegmentedStore.CompactSizeTiers | src/lib.rs:1920-1935 | `compact_tiers` reaches the specified state and counts; if anything merged it is the new commit point under the next epoch, published, else the commit point is unchanged; history and map stay |
| Store.SegmentedStore.ForceMergeTo | src/lib.rs:1945-1972 | `force_merge_to` reaches the specified state, the full compaction for n <= 1; it is the new, published commit point if there were too many segments, else the commit point is unchanged |
| Store.SegmentedStore.FullCompact | src/lib.rs:1883-1906 | `compact` reaches the specified state as the new, published commit point |
| Store.SegmentedStore.ReclaimTombstones | src/lib.rs:2194-2231 | `reclaim_tombstones` reaches the specified state, the new, published commit point if a segment was below the ratio; otherwise, and when a segment with items has no live count, it only seals and the commit point is unchanged; history and map stay |
| Store.SegmentedStore.LogOp | src/lib.rs:1714-1715 | the record is appended, or the log is dead until the next checkpoint |
| Store.SegmentedStore.SyncLogged | src/lib.rs:1816-1821 | on success everything logged is durable for ever; on failure the log is dead |
| Store.SegmentedStore.AddItem | src/lib.rs:1712-1725 | `add`: Done means durable, in the map, and sealed and merged as specified, checkpointed if a merge was due and else only logged; an error, unless the add fills the buffer with auto-compaction on and a tier then eligible, means that memory is as it was; an error of such a merge means durable and in the map; every error has a cause |
| Witnesses.AddErrsAfterAdding | src/lib.rs:1712-1725 | from every state in which the add makes a merge due there is a run, of the steps the code takes up to its first refused disk action after the log, that ends with the item durable and in the map |
| Witnesses.DueAfterOne | src/lib.rs:1712-1725 | a concrete run ends in such a state |
| Store.SegmentedStore.DeleteItem | src/lib.rs:1763-1770 | `delete`: Done means durable and out of the map; an error, poisoned or log failure, leaves memory alone |
| Store.SegmentedStore.ExtendItems | src/lib.rs:1737-1760 | `extend`: Done means the whole batch is durable and in the map; on every outcome a prefix of it was issued, and that prefix, or all but its last item, is in the map; an error is a log failure, or the failure of a merge that the last applied item made due, and then everything issued is applied and durable; with auto-compaction off a batch only adds log records |
| Envelope.Encode | src/lib.rs:743-769 | appending the fields and patching the CRC in place yields the specified bytes, or the recipe is too long |
| Envelope.DecodeEncoded | src/lib.rs:772-827 | what `encode` prints, `decode` reads back |
| Envelope.EncodeDecoded | src/lib.rs:772-827 | what `decode` accepts, `encode` prints |
| Envelope.ExactInverse | src/lib.rs:743-827 | for every byte string, `decode` returns a payload if and only if `encode` prints that string from it |
| Envelope.OwnTagsOnly | src/lib.rs:785-826 | a file never decodes under other magic, version, segment id or recipe than its own |
| Envelope.LeValueLast | src/lib.rs:743-769 | numbers are little-endian |
| Envelope.CoversAll | src/lib.rs:901-906 | the CRC covers every byte outside its own field |
| Envelope.Altered | src/lib.rs:812-819 | two different files accepted under the same tags differ in covered bytes, and have equal CRC fields only if those collide |
| Envelope.DecodeBlames | src/lib.rs:778-795 | an error names the first check that fails, in the order of the fields |
| Envelope.DecodeByInfo | src/lib.rs:837-898 | `decode` succeeds exactly when `payload_info` does and the CRC matches, on the same cut; otherwise both report the same error unless the CRC is wrong |
| Envelope.InfoExactly | src/lib.rs:837-898 | for any claimed length `payload_info` accepts exactly a complete header and recipe of these tags, and names everything after them |
| Names.NameRoundTrip | src/lib.rs:208-237 | every sidecar name given out is attributed to its own segment |
| Names.NamesInjective | src/lib.rs:234-237 | no two sidecars share a name |
| Names.IdxExactly | src/lib.rs:207-216 | collection attributes a file to a segment exactly by prefix, number, dot and any non-empty kind, older kinds included |
| Names.GarbageExactly | src/lib.rs:1856-1876 | by file name, collection removes exactly files of segments not kept, never a log or the manifest |
| Names.SegNamesInjective | src/lib.rs:138-145 | segment file and log names determine their numbers |
| SortedIds.SortDedup | src/sidecar.rs:140-145 | sorting and dropping duplicates yields the canonical list |
| SortedIds.SameIds | src/sidecar.rs:126-136 | two lists have the same canonical form exactly when they hold the same ids |
| SortedIds.BinarySearch | src/sidecar.rs:163-165 | binary search over a canonical list finds exactly its members |
| Sidecar.NewLiveIds | src/sidecar.rs:140-145 | live sets are equal exactly when their ids are |
| Sidecar.SidecarCache.Load | src/sidecar.rs:513-528 | loading yields the accepted index of the file under the segment's own name, or nothing on a refused read or for a segment that the host does not show |
| Sidecar.SidecarCache.GetOrBuild | src/sidecar.rs:415-437 | memory first, then the file, then the build, which runs only when neither answers; an answer is in memory afterwards, as the only entry of its segment, and nothing else changes |
| Sidecar.StaysCached | src/sidecar.rs:415-437 | an answered key is answered from memory with the same index, without load or build, until its segment is invalidated, evicted or looked up for other live ids |
| Sidecar.SidecarCache.Invalidate | src/sidecar.rs:444-452 | the segment's entry goes even if its file cannot be deleted |
| Sidecar.SidecarCache.Retain | src/sidecar.rs:457-460 | the entries of the given segments stay as they were and all others go |
| Sidecar.SidecarCache.Insert | src/sidecar.rs:554-562 | the new entry is the only one of its segment, and other segments' entries stay as they were |
| Sidecar.SidecarCache.Persist | src/sidecar.rs:466-478 | the entry's envelope replaces the file; `false` when there is no entry; each error has its own cause |
| Sidecar.SidecarCache.PersistMissing | src/sidecar.rs:486-510 | whatever the visiting order, exactly the absent files of pending entries are written, existing files stay, and the count is the number of new files |
| Sidecar.Transparent | src/sidecar.rs:415-437 | in every interleaving of lookups, invalidations, evictions and file changes, each answer is the fresh build or a failed build, with one entry per segment |
| Sidecar.BuiltIsSound | src/sidecar.rs:246-251 | if files hold only what builds gave, the acceptance rule only has to tell live sets of one segment apart |
| Sidecar.PersistingKeepsTrust | src/sidecar.rs:466-510 | persisting, whole or cut short, keeps that so |
| Sidecar.PersistThenLoad | src/sidecar.rs:466-528 | a persisted entry is what a new cache loads, and no other segment is affected |
| Sidecar.MisnamedIsRejected | src/sidecar.rs:513-528 | a sidecar copied to another segment's name is never loaded |
| InvertedIndex.BuildSegment | examples/inverted_index.rs:33-45 | the loops build, for each term, the ascending duplicate-free list of the documents that hold it |
| InvertedIndex.MergeSegments | examples/inverted_index.rs:47-66 | the loops yield the live postings of all inputs, without empty lists |
| InvertedIndex.SegmentLen | examples/inverted_index.rs:68-76 | the size of a segment is the number of distinct documents in it |
| InvertedIndex.BuildHolds | examples/inverted_index.rs:33-45 | a built segment lists a document under a term exactly when the document holds it |
| InvertedIndex.MergeHolds | examples/inverted_index.rs:47-66 | a merge lists a document under a term exactly when it is live and some input does |
| InvertedIndex.MergeOfBuilt | examples/inverted_index.rs:33-66 | merging built segments under a live filter is building from the filtered concatenation |
| InvertedIndex.BuiltDocIds | examples/inverted_index.rs:68-76 | a built segment counts the documents that have at least one term |
| IndexRuns.Query | examples/inverted_index.rs:79-94 | the query loops return the canonical list of hits |
| IndexRuns.ApplyDocKeeps | src/lib.rs:1774-1797 | without owners, adds of fresh ids and deletes keep the store a scan of the documents |
| IndexRuns.FlushKeeps | src/lib.rs:1824-1844 | sealing keeps it |
| IndexRuns.MergeKeeps | src/lib.rs:1983-2060 | merging any group keeps it |
| IndexRuns.MergeShape | src/lib.rs:1983-2060 | a merge removes its group, leaves every other segment, and adds one of the live postings, unless there are none |
| IndexRuns.CompactKeeps | src/lib.rs:1883-1906 | full compaction with its purge of the tombstones keeps it |
| IndexRuns.SealAndCompactShape | src/lib.rs:1883-1906 | sealing empties the buffer into one segment; full compaction leaves at most one segment and no tombstone |
| IndexRuns.QueryIsScan | examples/inverted_index.rs:79-94 | over every run that adds each id once, with refused writes and syncs, seals, merges, compactions, checkpoints that succeed, fail or are ambiguous, and crashes that lose any unsynced tail before a reopen, a query is the ascending duplicate-free list of the documents with the term that the surviving writes left |
| IndexRuns.UpkeepKeepsQueries | examples/inverted_index.rs:79-94 | no sync, seal, merge, compaction, checkpoint, refused or not, or reopen that finds the writes in memory changes a query |
| IndexRuns.SafeForever | src/lib.rs:1816-1821 | writes that were synced or checkpointed are among the survivors of every continuation |
| IndexRuns.SyncMakesSafe | src/lib.rs:1816-1821 | a sync or checkpoint that succeeds makes everything in memory such |
| IndexRuns.AddScansIff | src/lib.rs:1709-1711 | for any add, fresh or not, exactly when the store still reports exactly the documents |
| IndexRuns.ReaddKeepsOldTerms | src/lib.rs:1709-1711 | a concrete run whose re-added document stays under its old term |

## Left out

- Storage.Directory.PutSegment: does not model the per-blob size cap or partial file contents; a refused write is atomic.
- Safety.SyncKeeps: does not model the difference between flush and fsync; one notion of a synced record stands for the chosen policy.
- Safety.CommitKeeps: does not model a crash that takes back a manifest whose write was refused with its effect present.
- Legacy.ScanResult: takes a manifest that names each segment once; no checkpoint writes another, and `open` does not check it.
- Legacy.OpenedActsAsMap: covers opening any such manifest and every log replayed after it; disk steps that continue from a manifest of the original layout are not part of the protocol, whose runs start from an empty directory.
- Tiering.NextMergeGroup: does not model floating-point rounding or `usize` overflow.
- Store.SegmentedStore.LoadCheckpoint: does not tell a manifest or segment file that cannot be decoded from a refused read.
- Store.SegmentedStore.OpenStore: does not model undecodable manifest or segment files, the writer lock, the refusal of older file layouts, or `Fsync` on a backend without paths.
- Store.SegmentedStore.ExtendItems: takes the batch as a list, not as a lazily evaluated iterator.
- Sidecar.SidecarCache.GetOrBuild: takes the build closure as an object with a fixed answer; the lock around the call is not modelled.
- Envelope.DecodeByInfo: does not model the overflow check of the recipe length, which cannot fail on 64-bit machines.
- Compaction statistics, `segment_sizes`, `live_segment_of` and other accessors that return a field.
- The validator of checkpoint file headers and the streaming readers built on it, whose writer is not part of this model.
- Locking, path handling, parent-directory syncing, error message wrapping, legacy log detection and the deprecated panicking name helpers.
- Sidecar hosts other than by what they have in common: a directory, a naming rule, and a possibly restricted segment list.
