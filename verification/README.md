# JRAID, modelled and verified in Dafny

JRAID is a Linux software-RAID driver with a RAID-4/5 engine, a superblock layer, a small radix-indexed
block cache and a P/Q recovery program. This project models their logic in Dafny and proves what it
promises. `dafny verify dfyconfig.toml` checks everything.

| file | what it models |
|---|---|
| `AddressMap.dfy` | `jraid5_compute_sector`, `compute_blocknr`, the resync address, rotation and balance |
| `RequestChain.dfy` | `__add_stripe_bio` on values and on linked bios |
| `CopyData.dfy` | `copy_data` on byte arrays, and pages whose writes cover them |
| `StripeCore.dfy`, `StripeInvariant.dfy` | the stripe cache as a value, one function for each section under `device_lock`, and the invariant that each of them keeps |
| `StripeProtocol.dfy`, `StripeSafety.dfy`, `StripeRuns.dfy` | request threads, sleeps, submits, completions, the daemon, growing and shrinking as a step system, its invariant, and what holds over every run |
| `StripeLive.dfy`, `StripeLiveRun.dfy` | the code as it is, without retirement of requests: when the idle-device check fires, and runs that come to it |
| `StripePages.dfy`, `StripeResend.dfy` | requests at any sector and the pages sent for them; when a slot is sent twice |
| `StripeQueues.dfy`, `StripePass.dfy` | what becomes of queued requests and of R5_OVERWRITE; one pass of `handle_stripe` over all slots |
| `StripeHandle.dfy`, `StripeMissing.dfy` | STRIPE_HANDLE: it is never cleared, and when it is set |
| `LruList.dfy`, `HashChain.dfy`, `HashTable.dfy`, `StripeLists.dfy`, `StripeHeap.dfy` | the same cache in memory: linked lists, `hash_pprev` chains, and methods that refine the functions of `StripeCore.dfy` |
| `StripeHeapSafe.dfy` | these methods under the invariant of the cache, and the loops of `grow_stripes` and `shrink_stripes` |
| `Capacity.dfy` | size and capacity arithmetic: exactly when data and superblocks stay apart |
| `Superblock.dfy`, `Descriptors.dfy` | event counters, the freshest copy, update with retries, descriptor pruning |
| `BlockCache.dfy` | page splitting, tags, batched enumeration and teardown of the radix demo |
| `GaloisRecovery.dfy` | table generation and the encode, lose and recover loops for any number of disks |

A `BUG()` or a printk check of the stripe cache that finds its condition adds its line number to the field
`fired` of the model; no step follows one that has fired. `refs` and the release clock of the step system
are ghost information that the source does not have.

## Model

| member | source | states |
|---|---|---|
| AddressMap.MapThenInverse | src/jraid5.c:99-143 | undoing the map of any logical sector gives the sector back, for every disk count from 2, chunk size, layout and level |
| AddressMap.InverseThenMap | src/jraid5.c:99-143 | every member sector of every disk other than its row's parity disk is hit, by the sector the inverse names |
| AddressMap.MapInjective | src/jraid5.c:99-143 | two logical sectors never share a place |
| AddressMap.BlocknrExact | src/jraid5.c:388-434 | the exact chunk numbers for which the int truncation leaves `compute_blocknr` right |
| AddressMap.BlocknrOfRequest | src/jraid5.c:388-434 | below chunk number 2^31 the slot that the map selects is built with the request's own sector |
| AddressMap.BlocknrRejects | src/jraid5.c:426-432 | for a wrong parity disk, or for the parity disk itself, the "map not correct" branch is taken |
| AddressMap.BlocknrFails | src/jraid5.c:396-432 | at chunk number 2^31 the truncation does change the result |
| AddressMap.ResyncHitsRow | src/jraid5.c:1171-1185 | the resync computation maps back to `block_nr<<1` |
| AddressMap.ParityOncePerWindow | src/jraid5.c:115-136 | at level 5 every disk holds parity in exactly one of any n consecutive rows |
| AddressMap.DataInTheOthers | src/jraid5.c:115-136 | and data in exactly the other n - 1 |
| AddressMap.DataDisksExactly | src/jraid5.c:99-143 | some sector is mapped to a disk exactly if it is at level 5 or not the last one of level 4 |
| AddressMap.ParityRotates | src/jraid5.c:113-136 | the left layouts move the parity down from the last disk, row by row, the right ones up from the first; at level 4 it stays on the last |
| AddressMap.FirstInRow | src/jraid5.c:113-136 | the first chunk of a row is on the lowest disk without the parity, or in the symmetric layouts on the disk after the parity |
| AddressMap.NextInRow | src/jraid5.c:113-136 | the next chunk of the row is on the next disk without the parity, or in the symmetric layouts on the next disk counted around |
| AddressMap.LeftSymmetricRoundRobin | src/jraid5.c:128-131 | left-symmetric puts chunk c on disk c mod n |
| AddressMap.LeftSymmetricSpreads | src/jraid5.c:128-131 | any n consecutive chunks fall on n different disks |
| RequestChain.RefusesExactly | src/jraid5.c:565-578 | insertion refuses exactly when one of its two clash tests holds for a queued bio |
| RequestChain.RefusesIntersections | src/jraid5.c:565-578 | for non-empty bios: exactly when the new bio intersects a queued one |
| RequestChain.RefusesRightly | src/jraid5.c:565-578 | for all bios: refusal and sharing a sector agree exactly when some queued bio shares one, or no queued empty bio lies within the new one and no new empty bio strictly inside a queued one |
| RequestChain.EmptyBioBlocks | src/jraid5.c:569-578 | the three kinds of empty bio that make a bio without a common sector be refused |
| RequestChain.InsertKeeps | src/jraid5.c:579-584 | an accepted bio is added, nothing else changes, and the chain stays sorted and disjoint |
| RequestChain.InsertKeepsCover | src/jraid5.c:594-614 | queueing more never loses coverage |
| RequestChain.Slot.Scan | src/jraid5.c:596-613 | the scan succeeds exactly when the write chain covers the whole stripe page |
| RequestChain.Slot.AddStripeBio | src/jraid5.c:553-622 | through the pointer to a pointer: the new chains, R5_Overlap on refusal, R5_OVERWRITE exactly when an accepted write completes the cover |
| CopyData.CopyData | src/jraid5.c:624-664 | both directions: bytes in the overlap come from the other side, every other byte stays, for any segment list, at the offset that 32-bit arithmetic gives |
| CopyData.OffsetExactly | src/jraid5.c:633-636 | that offset is right exactly for bios that start less than 2^22 sectors after the page or at most 2^22 before it |
| CopyData.FarCopyExactly | src/jraid5.c:633-636 | a farther bio leaves every page alone, as it should, exactly when its wrapped offset misses the page |
| CopyData.FarBioOverwrites | src/jraid5.c:633-636 | at 2^23 sectors a bio that does not touch the page replaces it |
| CopyData.OverwriteForgets | src/jraid5.c:594-664 | if the write chain covers the page, applying it in any order to any page gives the same page |
| CopyData.CoversExactly | src/jraid5.c:594-664 | a sorted chain of near bios covers the page exactly if copying it in leaves nothing of what the page held before |
| CopyData.CopyRoundTrip | src/jraid5.c:624-664 | what is copied onto the page and out again comes back, whatever the buffer held |
| CopyData.CopyBack | src/jraid5.c:624-664 | a page that is copied out and in again is the same |
| CopyData.UncoveredKept | src/jraid5.c:594-664 | a byte whose sector the chain leaves out keeps its value |
| StripeInvariant.ReleaseKeeps | src/jraid5.c:67-88 | `__release_stripe` keeps the cache invariant and fires no check; the last release appends the stripe to handle_list if it has STRIPE_HANDLE and to inactive_list otherwise |
| StripeInvariant.BodyKeeps | src/jraid5.c:513-547 | one turn of `get_active_stripe` keeps it; the only check that can fire is the one at 497, exactly when the recycled stripe still has requests |
| StripeInvariant.RecycledClean | src/jraid5.c:469-503 | a stripe recycled while idle has no requests and no flags, one reference, the parity disk of its row and the logical sectors of its data slots |
| StripeInvariant.ReleaseChecks | src/jraid5.c:67-88 | also for a broken cache: check 70 is silent exactly if no stripe is on the lists twice after the release, 74 exactly if the counter is not zero |
| StripeInvariant.OtherChecks | src/jraid5.c:310-539 | also for a broken cache: the exact conditions of the other checks |
| StripeInvariant.DaemonTakeKeeps | src/jraid5.c:1216-1226 | the daemon's take of the first handled stripe keeps it |
| StripeInvariant.ShrinkFreeKeeps | src/jraid5.c:300-318 | freeing a taken stripe keeps it |
| StripeSafety.StepKeeps | src/jraid5.c:67-551 | every step of the protocol keeps the invariant, unless it recycles a stripe with requests queued |
| StripeRuns.OnlyTheIdleCheckFires | src/jraid5.c:67-551 | over every run the checks at 70, 74, 310, 474, 476, 532, 539 and 1225 never fire, and the one at 497 does exactly when an event recycled a busy stripe |
| StripeRuns.EveryStripeInOnePlace | src/jraid5.c:67-88 | each live stripe is held, on handle_list or on inactive_list, never two of them, and its count is its holders plus its bios in flight |
| StripeRuns.NoSectorTwice | src/jraid5.c:513-544 | two threads given a stripe for the same row hold the same one, the one the table finds, although the lock is dropped while sleeping |
| HashTable.Table.OnePerSector | src/jraid5.c:145-179 | in memory, no two stripes on the chains share a sector |
| StripeRuns.ConservationInRuns | src/jraid5.c:278-317 | active_stripes plus the free stripes are all stripes, and active_stripes are the held, the queued and those being freed |
| StripeRuns.NoLostWakeUp | src/jraid5.c:520-526 | an unwoken sleeper implies that inactive_list is empty |
| StripeRuns.SecondBodyIsLast | src/jraid5.c:513-544 | a sleeper that finds a free stripe runs the loop body a second time and does not sleep again; it is served, unless the stripe it gets is busy and check 497 stops the machine |
| StripeRuns.NullExactly | src/jraid5.c:513-550 | with noblock NULL is returned, and without it the thread sleeps, exactly when the sector is uncached and no stripe is free; otherwise a stripe is returned, or check 497 fires exactly if a busy one had to be recycled |
| StripeRuns.FirstIsLongestIdle | src/jraid5.c:181-196 | the stripe that would be evicted is the one released the longest ago |
| StripeRuns.DaemonTakesOldest | src/jraid5.c:1216-1226 | handle_list is a queue: `jraid5d` takes the stripe that was queued the longest ago |
| StripeRuns.ShrinkFreesOldest | src/jraid5.c:300-318 | `shrink_stripes` takes the stripe idle the longest off the list and the table, and then frees it and nothing else |
| StripeRuns.EvictionLeavesOthers | src/jraid5.c:189-192 | eviction leaves every other cached sector findable; check 497 fires exactly if the recycled stripe is busy |
| StripeRuns.ParityLeftAlone | src/jraid5.c:469-503 | a cached stripe has the parity disk of its row, whose chains are empty, and no bio in flight goes there |
| StripeRuns.RequestsStartAtSlot | src/jraid5.c:1123-1134 | a queued request starts exactly at its slot's sector, below chunk number 2^31 |
| StripeRuns.PublishedRequestsStartAtSlot | src/jraid5.c:1123-1134 | so it does for every sector below the published capacity |
| StripeRuns.AddRefusedExactly | src/jraid5.c:553-592 | in every reachable state a request is refused exactly when its chain, that of its slot and direction, is not empty and the request is not; a refusal leaves the cache as it is, otherwise the request joins the chain |
| StripeQueues.AddLeavesOthers | src/jraid5.c:553-592 | an insertion changes at most the chain of its own slot and direction: not the other direction, no other slot or stripe, neither table nor lists |
| StripeQueues.QueuedStays | src/jraid5.c:553-592 | over any stretch of a run without retirement, every request queued on a stripe stays queued in its slot and direction as long as the stripe lives |
| StripeRuns.OneRequestPerChain | src/jraid5.c:553-592 | a chain never holds two non-empty requests |
| StripeQueues.OverwriteExactly | src/jraid5.c:594-614 | in every reachable state a data slot of a cached stripe has R5_OVERWRITE only if its queued writes cover the page, and if they do, it has it or a thread is about to scan it |
| StripePass.HandlePass | src/jraid5.c:699-858 | a thread that is not disturbed sends exactly one bio for each slot that has something to send and a member, a write before a read, keeps the queues, and sets STRIPE_HANDLE exactly if a member was missing |
| StripeRuns.OverwriteMeansCovered | src/jraid5.c:594-614 | R5_OVERWRITE on a cached slot means that its write chain covers the page |
| StripeRuns.NeverStuck | src/jraid5.c:505-551 | a thread that is neither idle nor waiting for a wake-up can always take its next step |
| StripeRuns.CompletionsLand | src/jraid5.c:320-359 | the stripe of every bio in flight is there and held when the bio completes |
| StripeRuns.ReferencedKeepsRow | src/jraid5.c:67-88 | over any run, as long as a stripe is referenced without a break it keeps its sector, its parity disk and its place in the table |
| StripeRuns.BioKeepsRow | src/jraid5.c:320-359 | over any run, from submission to completion a bio goes to one slot of one stripe, whose sector and parity disk stay the same |
| StripePages.PagesDisjoint | src/jraid5.c:1123-1128 | over any run whose requests are all at the same offset in their pages, the pages sent for two cached rows share no sector |
| StripePages.PagesInRow | src/jraid5.c:834-842 | over any run whose requests are all aligned, the page of a cached row lies in that row and has one parity disk |
| StripePages.PagesOverlap | src/jraid5.c:1123-1128 | for every array, two reads half a page apart are mapped to one member and cached as two rows whose pages overlap |
| StripePages.PageReachesParity | src/jraid5.c:834-842 | the page for the last sector of a chunk runs into a row whose parity is on the same member |
| StripeResend.OneBioPerSlot | src/jraid5.c:531-547 | over any run in which no request finds its row cached with a count other than zero, no slot has two bios in flight and no stripe two holders |
| StripeResend.SecondSends | src/jraid5.c:801-851 | in every state of the live code, a request for a slot in flight makes its thread send the slot again, even when the request itself is refused |
| StripeResend.TwiceInFlight | src/jraid5.c:813-851 | for every array with a data member present, a run without retirement has one slot in flight twice |
| StripeHandle.HandleSticks | src/jraid5.c:856 | no step clears STRIPE_HANDLE or frees a stripe that has it; only the submit loop sets it, for a missing member |
| StripeHandle.HandledForever | src/jraid5.c:77-88 | over any run a stripe with STRIPE_HANDLE keeps it and its sector, and is never free again |
| StripeMissing.NeverHandled | src/jraid5.c:801-858 | while every member that holds data is there, no reachable state has a handled stripe, and handle_list is empty |
| StripeMissing.HandledExactly | src/jraid5.c:801-858 | a handled stripe is reachable, with or without retirement, if and only if a member that holds data is missing |
| StripeLive.FreeBusyExactly | src/jraid5.c:491-498 | without retirement, in every reachable state a free stripe has requests queued exactly if it is still cached |
| StripeLive.LiveFiresExactly | src/jraid5.c:491-498 | without retirement, the check at 497 fires exactly when an uncached row is asked for while the first free stripe is still cached for another |
| StripeLive.OneRowPerStripe | src/jraid5.c:509-551 | without retirement and shrinking, every row that a run caches stays cached, so there are at most as many as stripes |
| StripeLiveRun.IdleCheckCanFire | src/jraid5.c:491-498 | for every array, pool size n and present data member, a run without retirement comes to a state with all n stripes free and cached, in which every request for an uncached row, such as the next read, fires the check at 497 |
| LruList.AddTail | src/jraid5.c:79 | appending to the circular list |
| LruList.DelInit | src/jraid5.c:191 | deleting a node without naming its list |
| HashChain.Push | src/jraid5.c:457-467 | `insert_hash` on one chain with its back-pointers |
| HashChain.Unlink | src/jraid5.c:145-155 | `remove_hash` through `hash_pprev` on one chain |
| HashChain.NeighboursApart | src/jraid5.c:36-40 | any 512 consecutive pages hash to different buckets |
| HashTable.Table.Insert | src/jraid5.c:457-467 | the chains of all buckets stay well linked and represent the map with the sector added |
| HashTable.Table.Remove | src/jraid5.c:145-155 | the map with the stripe's sector removed; a stripe without a back-pointer is left alone |
| HashTable.Table.Find | src/jraid5.c:169-179 | the walk returns exactly the map's entry |
| StripeHeap.StripeCache.Release | src/jraid5.c:67-88 | in memory, `__release_stripe` is the function of StripeCore |
| StripeHeap.StripeCache.GetFreeStripe | src/jraid5.c:181-196 | in memory, so is `get_free_stripe` |
| StripeHeap.StripeCache.InitStripe | src/jraid5.c:469-503 | and `__init_stripe`, with its loop over the slots |
| StripeHeap.StripeCache.LoopBody | src/jraid5.c:513-547 | and one turn of `get_active_stripe`, with every outcome |
| StripeHeap.StripeCache.DaemonTake | src/jraid5.c:1217-1226 | and the locked section of `jraid5d` |
| StripeHeap.StripeCache.GrowOne | src/jraid5.c:278-294 | and a new stripe of `grow_stripes` |
| StripeHeap.StripeCache.ShrinkFree | src/jraid5.c:310-316 | and a stripe freed by `shrink_stripes` |
| StripeHeapSafe.ReleaseHeld | src/jraid5.c:67-88 | in memory, a release by a holder always finds the stripe on no list, fires no check, keeps the invariant and appends to the list that STRIPE_HANDLE selects |
| StripeHeapSafe.GetHeld | src/jraid5.c:513-547 | in memory, the caller gets a reference to the stripe of the sector; only check 497 can fire, exactly when a busy stripe is recycled |
| StripeHeapSafe.TakeHandled | src/jraid5.c:1217-1226 | in memory, the daemon takes the first stripe of handle_list, which nobody references, and fires no check |
| StripeHeapSafe.GrowStripes | src/jraid5.c:278-296 | the loop adds free stripes up to the first allocation that fails, fires no check and keeps the invariant |
| StripeHeapSafe.ShrinkStripes | src/jraid5.c:300-318 | the loop frees the first num free stripes, or all of them, and nothing else |
| StripeHeapSafe.StartPool | src/jraid5.c:1411-1415 | the pool is complete and free, or on failure no stripe is left behind |
| Capacity.ReservedFits | src/jmd.c:623-642 | the superblock area fits on a device exactly when it has 128 sectors |
| Capacity.ChunkExactly | src/jmd.c:1328-1342 | the chunk sizes that pass are the powers of two from a page to 4 MB |
| Capacity.TinyPasses | src/jmd.c:1089-1095 | every smaller device passes the size check |
| Capacity.SizeIsMinimum | src/jmd.c:806-810 | sb->size is the smallest member size, in any order of addition |
| Capacity.ZeroForgets | src/jmd.c:809-810 | a member of size zero makes sb->size forget the members before it, and the size check rejects the array |
| Capacity.DataBelowSuperblocks | src/jmd.c:84-95 | every sector below the published capacity is mapped below sb->size, which is at most every member's superblock offset; its page ends there too if the sector is aligned or there are three members |
| Capacity.SafeExactly | src/jmd.c:1073-1095 | for members that pass the check and requests at any sector, at levels 4 and 5: no page reaches a superblock if and only if nothing is published, or all members that hold data have 128 sectors and, with two members, the superblock of the one that holds the last sector lies beyond the capacity |
| Capacity.AlignedSafeExactly | src/jmd.c:1073-1095 | for requests at multiples of a page the condition on two members falls away |
| Capacity.LastSectorOverrun | src/jraid5.c:834-842 | two members of 32896 sectors: the page for the last published sector runs into a superblock |
| Capacity.SmallMemberOverrun | src/jmd.c:634-641 | an array that passes every check and maps a page beyond the end of a member |
| Capacity.PublishedInverse | src/jmd.c:84-95 | on every published sector `compute_blocknr` inverts the map |
| Superblock.CounterSaturates | src/jmd.c:1242-1248 | the two event words are one 64-bit counter that saturates at both ends |
| Superblock.CopyPasses | src/jmd.c:689-704 | a copy made by `sync_sbs` passes the checksum test and equals the array superblock up to this_disk and sb_csum |
| Superblock.CopyNamesDevice | src/jmd.c:658-701 | a copy names the first descriptor of its own device as this_disk |
| Superblock.DevDigits | src/jmd.c:658-676 | `MKDEV` of a 12-bit major and a 20-bit minor has them as its digits |
| Superblock.Rdev.SetThisDisk | src/jmd.c:658-676 | the first descriptor of the device becomes this_disk |
| Superblock.Jmddev.SyncSbs | src/jmd.c:689-704 | every non-faulty member gets its copy, names its first descriptor as this_disk and takes its number; a faulty one keeps what it had |
| Superblock.Jmddev.SelectFreshest | src/jmd.c:901-931 | the first copy with the most events is chosen, where a wrong checksum costs one; out of date means that two copies differ |
| Superblock.RoundTrip | src/jmd.c:689-931 | after `sync_sbs` every copy passes and the election restores the array superblock |
| Superblock.Jmddev.SyncAndSelect | src/jmd.c:689-931 | the two run one after the other on one array |
| Superblock.DamagedBeatsSound | src/jmd.c:908-930 | a damaged copy beats a sound one exactly from two events ahead |
| Superblock.Jmddev.UpdateSb | src/jmd.c:1233-1286 | at most 100 attempts, one event each, ending at the first whose codes add up to zero; every non-faulty copy is fresh and names its own descriptor |
| Superblock.SuccessExactly | src/jmd.c:1271-1277 | the codes add up to zero exactly when there are twelve skipped members for each one without memory |
| Superblock.SmallArraysExactly | src/jmd.c:1271-1277 | with at most twelve members, exactly when every member was written |
| Superblock.SkipsHideFailure | src/jmd.c:1271-1283 | thirteen members none of which is written, and no second attempt |
| Descriptors.Prune | src/jmd.c:974-1013 | the pass over the descriptors, entries and counters |
| Descriptors.SurvivorsSound | src/jmd.c:974-1028 | an entry that keeps its device is not faulty and is named by a member, so the abort for a faulty entry is unreachable |
| Descriptors.SoundKept | src/jmd.c:981-1012 | nothing else is lost: a sound entry that a member names is kept as it is |
| Descriptors.PruningKeepsBalance | src/jmd.c:819-835 | working_disks + failed_disks - nr_disks is unchanged |
| Descriptors.CountersGoDown | src/jmd.c:819-835 | working_disks, spare_disks and failed_disks go down by the pruned entries of their kind, told by the bits of the state |
| Descriptors.PrunedEntry | src/jmd.c:974-1013 | which entries go, and what is left in them: no device, faulty and removed, the same number and place |
| Descriptors.NumberGoesDown | src/jmd.c:819-835 | nr_disks goes down by the number of pruned entries |
| Descriptors.PruningAgainExactly | src/jmd.c:981-996 | a second pass changes nothing exactly when no faulty entry is named by a member |
| Descriptors.PruneAndCheck | src/jmd.c:974-1071 | zero is returned exactly when every remaining entry has a member, members have distinct numbers and devices, and the version fits |
| BlockCache.SplitExactly | attach/tpblkdev/radix_demo.c:224-255 | a segment touches exactly the pages it overlaps if and only if it is not empty and ends within the next page |
| BlockCache.Device.InsertPage | attach/tpblkdev/radix_demo.c:157-194 | the block of the page, made if absent, null without memory |
| BlockCache.Device.Move | attach/tpblkdev/radix_demo.c:224-293 | the split of a segment, also when an allocation fails in the middle |
| BlockCache.Device.MakeRequest | attach/tpblkdev/radix_demo.c:298-334 | all segments of a bio, up to the first error |
| BlockCache.TagsExactly | attach/tpblkdev/radix_demo.c:224-334 | after any bios without allocation failure the DIRTY and the TSYNC pages are exactly those overlapped by a write |
| BlockCache.RequestsSound | attach/tpblkdev/radix_demo.c:197-222 | also with failures: both tags agree, tagged pages are present, and the write counters agree and bound their number |
| BlockCache.FailureStops | attach/tpblkdev/radix_demo.c:326-334 | a request ends at the first page that cannot be allocated, with the pages before it transferred and tagged and nothing else |
| BlockCache.RequestCounts | attach/tpblkdev/radix_demo.c:224-334 | without failures every piece of a page is counted once, as a write or as a read |
| BlockCache.DirtyCountedAgain | attach/tpblkdev/radix_demo.c:196-208 | a page that is dirty already is counted again |
| BlockCache.FindGetBlksTag | attach/tpblkdev/radix_demo.c:402-440 | the next batch of tagged indices in ascending order, none left out |
| BlockCache.Device.FindTagBlks | attach/tpblkdev/radix_demo.c:442-471 | the count is whole batches of 16 up to the batch that reaches the end |
| BlockCache.AllCountedExactly | attach/tpblkdev/radix_demo.c:442-471 | which is every tag, once, exactly if the tags from the end onwards fit into that last batch |
| BlockCache.AllCounted | attach/tpblkdev/radix_demo.c:442-471 | as they do when no index exceeds the end |
| BlockCache.SomeUncounted | attach/tpblkdev/radix_demo.c:442-471 | of more than 16 tags, all from the end onwards, 16 are counted |
| BlockCache.Device.FreeAllBlks | attach/tpblkdev/radix_demo.c:473-503 | terminates, frees every block once in ascending order, and leaves tree and tags empty |
| GaloisRecovery.Inverses | algorithm/raid6_pq/algorithm.c:10-24 | the two tables are inverse to each other |
| GaloisRecovery.AlogIsPower | algorithm/raid6_pq/algorithm.c:10-24 | the antilogarithms are the powers of 2 in the field |
| GaloisRecovery.GenerateGaloisTable | algorithm/raid6_pq/algorithm.c:10-24 | what the loop leaves in the two zeroed tables |
| GaloisRecovery.DivideIsMultiply | algorithm/raid6_pq/algorithm.c:26-38 | quotient and product of the live code are the same function |
| GaloisRecovery.ProductExactly | algorithm/raid6_pq/algorithm.c:26-31 | the product of the live code is that of the field exactly for nonzero symbols whose logarithms share no binary digit |
| GaloisRecovery.DivideUndoes | algorithm/raid6_pq/algorithm.c:26-38 | division undoes multiplication exactly for a nonzero symbol whose logarithm is not the complement of the other |
| GaloisRecovery.RecoversExactly | algorithm/raid6_pq/algorithm.c:114-120 | for any number of disks and any lost disk, the exact condition under which the symbol comes back |
| GaloisRecovery.ZeroCoefficient | algorithm/raid6_pq/algorithm.c:99-120 | with the coefficient 0 of the program, exactly the nonzero symbols come back |
| GaloisRecovery.ParityGives | algorithm/raid6_pq/algorithm.c:94-124 | P is the sum of all disks: with the other disks it gives the symbol of any one |
| GaloisRecovery.ParityTells | algorithm/raid6_pq/algorithm.c:121-124 | P computed again equals the first P exactly when the lost symbol is back |
| GaloisRecovery.RoundTrip | algorithm/raid6_pq/algorithm.c:94-124 | encode, lose and recover on arrays: contents and P come back exactly under that condition |

## Findings

Properties that the code does not meet, the input that shows it, and the exact condition.

| what one would expect | what happens | member |
|---|---|---|
| a free stripe has no request queued (src/jraid5.c:491-498) | requests are never retired (706-728 and 753 are disabled), so a free stripe has requests queued exactly if it is still cached; each stripe serves one row, and the check stops the machine exactly when another row is asked for while the first free stripe is cached. Runs that come to it exist for every pool size. With retirement, over any run, it fires exactly when a busy stripe is recycled | StripeLive.FreeBusyExactly, StripeLive.LiveFiresExactly, StripeLiveRun.IdleCheckCanFire, StripeRuns.OnlyTheIdleCheckFires |
| a handled stripe becomes free again (src/jraid5.c:77, 856) | nothing clears STRIPE_HANDLE, so a stripe that has it never leaves the circle of holders and handle_list; some run sets it if and only if a member that holds data is missing | StripeHandle.HandledForever, StripeMissing.HandledExactly |
| a second request for a slot and direction is queued (src/jraid5.c:565-592, 1132) | it is refused exactly when the chain is not empty, even if only with an empty request, and the new request is not empty; its caller goes on as if it were queued | StripeRuns.AddRefusedExactly |
| bios that share no sector do not overlap (src/jraid5.c:569-578) | a bio is refused without sharing a sector exactly when no queued bio shares one and a queued empty bio lies within it, its first sector included, or it is empty and strictly inside a queued bio | RequestChain.RefusesRightly, RequestChain.EmptyBioBlocks |
| `compute_blocknr` is the inverse for every sector (src/jraid5.c:396, 423) | its chunk number is an int; exact chunk numbers are stated, and every published sector of an array with no more members than sectors in a chunk is covered | AddressMap.BlocknrExact, Capacity.PublishedInverse |
| `copy_data` places a bio at any distance (src/jraid5.c:633-636) | the byte offset is an int, right exactly less than 2^22 sectors after the page or at most 2^22 before it. `copy_data` has no live caller, and the bios that the cache queues start at their slot, so a farther bio is hypothetical | CopyData.OffsetExactly, CopyData.FarCopyExactly |
| a member that passes the size check has room for its superblock (src/jmd.c:634-641, 1090) | a member below 128 sectors wraps and passes; if it holds data and anything is published, data reaches beyond its end | Capacity.TinyPasses, Capacity.SmallMemberOverrun, Capacity.SafeExactly |
| data stays below the superblocks (src/jmd.c:84-95, src/jraid5.c:834-842) | a whole page is sent for a request at any sector; with two members the page for the last published sectors reaches the superblock of their member exactly if that begins at the capacity. For aligned requests, or three members, only the row above matters | Capacity.SafeExactly, Capacity.LastSectorOverrun, Capacity.AlignedSafeExactly |
| stripes of different rows do not share sectors (src/jraid5.c:1123-1128) | rows are cached by the sector of the request as it is: they are disjoint if all requests are at one offset in their pages, and lie in one row of the array if they are aligned; reads half a page apart are cached with overlapping pages | StripePages.PagesDisjoint, StripePages.PagesInRow, StripePages.PagesOverlap |
| a slot is sent once at a time (src/jraid5.c:813-851) | its one bio is sent again while in flight by every request for the slot; never if no request finds its row already referenced | StripeResend.SecondSends, StripeResend.OneBioPerSlot |
| an update without error has written every member (src/jmd.c:1271-1283) | codes are added up, and twelve skips hide one failed allocation | Superblock.SuccessExactly, Superblock.SkipsHideFailure |
| pruning is done after one pass (src/jmd.c:981-996) | a faulty entry that a member names is counted off again by every pass | Descriptors.PruningAgainExactly |
| `set_blk_dirty` counts a page once, as its comment says (attach/tpblkdev/radix_demo.c:196-208) | it counts every write; the code is followed | BlockCache.FailureStops | attach/tpblkdev/radix_demo.c:326-334 | a request ends at the first page that cannot be allocated, with the pages before it transferred and tagged and nothing else |
| BlockCache.RequestCounts | attach/tpblkdev/radix_demo.c:224-334 | without failures every piece of a page is counted once, as a write or as a read |
| BlockCache.DirtyCountedAgain |
| a segment touches the pages it overlaps (attach/tpblkdev/radix_demo.c:224-255) | an empty one touches a page, one that ends beyond the next page misses pages; segments of a bio longer than a page are hypothetical | BlockCache.SplitExactly |
| every tagged block is counted (attach/tpblkdev/radix_demo.c:442-471) | hypothetical, because the capacity of the disk is the size of the device (364, 382) and so no page lies beyond the end: blocks after the batch that reaches the end are not | BlockCache.Device.FindTagBlks, BlockCache.AllCountedExactly, BlockCache.SomeUncounted |
| `Galois_mutipile` is the product of the field, and division undoes it (algorithm/raid6_pq/algorithm.c:26-38) | logarithms are combined with exclusive or: the product is right exactly for nonzero symbols whose logarithms share no binary digit, and the quotient is the same function | GaloisRecovery.ProductExactly, GaloisRecovery.DivideIsMultiply, GaloisRecovery.DivideUndoes |

## Left out

- Retirement of requests is disabled in this version (src/jraid5.c:706-791). The step system has an abstract step that empties the queues of one slot of a held stripe and clears R5_OVERWRITE; `StripeLive.dfy` and `StripeLiveRun.dfy` are about runs without it.
- The completion of a write is one atomic step, as the completion of a read is, although its locking is commented out in the source (src/jraid5.c:340-359).
- The step system takes the sections under `device_lock` as its steps; the per-stripe spinlock, memory barriers and the interleaving of the flag and submit loops within one slot are not modelled.
- The direction of a bio in flight is not recorded; HandlePass tells which of the two flags it clears.
- A slot that is sent again while in flight: the model gives every submission its own tag, while the source has one bio for each slot. `StripeResend.dfy` says when that happens; what the block layer makes of it is not modelled.
- `jraid5_make_request` always ends the bio (src/jraid5.c:1121, 1157) while it stays on its chain, so a queued extent of the live code is memory that the block layer may free. The model keeps its values; AddRefusedExactly and the results on retirement rest on that.
- R5_UPTODATE, R5_LOCKED, R5_Insync, STRIPE_SYNCING and the written queue: nothing live sets or tests them in a way that changes the modelled steps; R5_Overlap is modelled on the request chain only.
- The slots of a stripe in `StripeHeap.dfy` are values; the linked bios of one slot are modelled in `RequestChain.dfy` by themselves.
- NeverStuck: says that a step is possible, not that it is taken; no fairness is assumed, and the drain of handle_list by `jraid5d` is not claimed to end.
- A member that is missing is modelled by `present`; failing and replacing members during a run is not.
- Any layout other than the four named ones takes the default branch of the source with uninitialised results and is not modelled.
- 64-bit overflow of `bi_sector` plus length, and of the page offset while it advances through segments, is not modelled; the 32-bit start offset and the int chunk number are.
- The checksum is a function parameter applied to the superblock with `sb_csum` zeroed; the 396 bytes after the structure that the source's sum also covers are not modelled.
- PruneAndCheck: starts at the pruning pass; the renaming of moved devices before it (src/jmd.c:943-972) and the checks of magic and minor number at the head of `analyze_sbs` are not modelled.
- UpdateSb: results of `write_disk_sb` and times are parameters; the asynchronous completion of a superblock write is not modelled.
- `sync_page_io`, sysfs, gendisk, block device open and close, kernel threads and module setup are plumbing and not modelled.
- `release_stripe__`, `__raid5_end_write_request`, `shrink_stripe_cache`, `__grow_buffers` and `__shrink_buffers` have no live caller.
- `jraid5_sync_request` beyond its address arithmetic and `jmd_do_sync` rest on uninitialised variables.
- Data of the radix demo: its copies go within the bio's own page, so only indices, tags and counters are claimed. A failing `radix_tree_insert` after a successful preload is not modelled.
- FindTagBlks: the printed counters are not part of the result.
- The Galois program draws symbols from 1 to 16, and 16 lies outside its tables; the model has the symbols 0 to 15.
- The XOR templates, memory helpers, sockets, stubs and option parsing of the other directories would only add easy members.
