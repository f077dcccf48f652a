# NumaTOP core algorithms, verified

A Dafny model of the algorithms under NumaTOP's display, with proofs of what they promise.
`dafny verify dfyconfig.toml` checks everything.

- `Ring`, `RingCodec`: the reader of a perf_event memory-mapped ring. An encoder writes the
  kernel's record layout; draining the ring is proved to invert it, across the wrap point of
  the buffer. The reader keeps the 64-bit head in a 32-bit `int` when it skips a record, so a
  skip with an odd multiple of 2^31 between the record's end and the head jumps to the head;
  the drain is lossless exactly when no wanted record comes after such a skip.
- `PointerChase`: mgen's generator of a pointer cycle. Random draws are an input; it finishes
  exactly on the draws that cover all indices, and then the buffer is one cycle through every
  element, block after block.
- `Lifetime`, `LifetimeProgress`: reference counts and deferred frees of processes and
  threads, one step a critical section, over all interleavings: that nothing bad happens, and
  that what is looked up is granted, what is dropped is dropped and what is last dropped freed.
- `ProcGroup`, `LwpMerge`: the hash table of processes and the sorted array of a process's
  threads, refreshed in place.
- `NumaMap`, `Latency`: run-length encoding of a mapping's pages by node, and charging of
  latency samples to areas by binary search. Page addresses use a 32-bit product, so the
  encoding tiles the mapping exactly when that is at most 4 GiB.
- `Counters`, `Sampling`, `SampleTotals`, `SampleSlots`: charging of counter deltas to
  processes, threads and nodes, over one CPU's records and over a whole sample, while CPUs and
  nodes come and go; each process and thread gets what the records bearing its ids come to.
- `CpuSlots`: the table of CPU slots of a node: refresh, traversal, and the sum that stops
  early. A CPU that comes back before its pending removal is done loses its slot at the next
  traversal; that is exactly when a refresh and a traversal do not end on the reported set.
  A CPU removed before it was set up leaves its empty slot marked, so a later traversal sets
  up an empty slot; exactly when is proved.
- `Symbols`, `StableSort`, `CallChain`: symbol lookup, the list of call chains, its counting
  and its sort. An entry whose end wraps past 2^64 never matches the address it was made from,
  which is exactly when the same chain is added twice.
- `SymLoad`: reloading a process's memory map; symbols are read once for each stay of a region
  in it.
- `CpuRange`, `CpuText`: CPU ids printed as ranges, and ranges expanded. A range written
  backwards makes the running total fall; a later write can then fall before the array, and
  exactly when is proved. A CPU awaiting removal is shown as a CPU 0.
- `PageHistory`: the history of pages.
- `Libc`: `qsort` on integers and `bsearch`; `Basics`: machine integers.

Objects the code updates in place are classes here, arrays it works on are arrays, and each
such method is proved against a function of the old state. Where a comment in the code and
the code differ, the model follows the code.

## Model

| member | source | states |
|---|---|---|
| Ring.SkipMoves | common/os/pfwrapper.c:103-115 | a skip goes where asked unless the 32-bit comparison says it passed the head, then to the head |
| Ring.ResetExact | common/os/pfwrapper.c:117-126 | reset reaches the head if and only if the head survives a round trip through a signed 32-bit int |
| Ring.MmapPage.constructor | common/os/pfwrapper.c:128-149 | the ring has the data pages its precision asks for, and starts valid and empty |
| Ring.MmapPage.Read | common/os/pfwrapper.c:56-100 | an aligned 8-byte read succeeds iff a word is unread, returns the oldest unread word and leaves the rest |
| Ring.MmapPage.Skip | common/os/pfwrapper.c:103-115 | the tail moves as SkipMoves says and the page stays valid |
| Ring.MmapPage.ReadIps | common/os/pfwrapper.c:320-352 | the call-chain loop takes the ips that the scan of the unread words gives, and consumes exactly the words it used |
| Ring.MmapPage.SampleRead | common/os/pfwrapper.c:259-366 | reading one sample equals the function of the unread words, in result and in tail |
| Ring.MmapPage.RecordOne | common/os/pfwrapper.c:388-421 | one round of the drain consumes one record and always moves on, unless it stops |
| Ring.MmapPage.Record | common/os/pfwrapper.c:368-421 | the whole drain terminates with the tail and the delivered records that the unread words determine |
| RingCodec.ScanIpsSpec | common/os/pfwrapper.c:320-352 | the scan keeps the first 32 user-space ips and stops early exactly when it has 32 before the last |
| RingCodec.DeliveredIs | common/os/pfwrapper.c:259-366 | a delivered record has the sample's ids, each counter it carries scaled by its two times and the others as they were, and the first 32 user-space addresses |
| RingCodec.UserIpsAre | common/os/pfwrapper.c:336-346 | the user-space addresses are those below the kernel's, each as often as it comes |
| RingCodec.UserIpsAppend | common/os/pfwrapper.c:336-346 | and in the order they come |
| RingCodec.SampleDecodes | common/os/pfwrapper.c:259-366 | decoding an encoded sample gives its fields back, and needs the closing skip exactly when the chain scan stopped early |
| RingCodec.SkipExact | common/os/pfwrapper.c:103-115 | a skip to a record's end is exact unless a window of 2^32 bytes ends between it and the head |
| RingCodec.OneRecordDecodes | common/os/pfwrapper.c:388-421 | one round on an encoded record delivers it if it has a pid and a tid, and frames it exactly whatever its chain length |
| RingCodec.DrainDecodes | common/os/pfwrapper.c:388-421 | draining an encoded stream reaches the head and delivers, in order, what is expected of the records before a straddling skip |
| RingCodec.DrainEnds | common/os/pfwrapper.c:368-421 | whatever words are unread, cut off or mangled, within one 32-bit window a drain ends at the head, or, if some size is too small for a record, where a reset does |
| RingCodec.TooSmallResets | common/os/pfwrapper.c:388-398 | a size too small for a record ends the drain with nothing more delivered, and gets to the head iff the head survives a signed 32-bit int |
| RingCodec.SurviveInWindow | common/os/pfwrapper.c:103-115 | with tail and head in the same 32-bit window no record is lost |
| RingCodec.LosslessIff | common/os/pfwrapper.c:388-421 | nothing is lost if and only if no record after the first straddling skip has both a pid and a tid |
| RingCodec.StraddleLoses | common/os/pfwrapper.c:103-115 | a stream at 2^31 whose only deliverable record is lost |
| RingCodec.StoredReads | common/os/pfwrapper.c:56-100 | a word stream written into the ring from any slot, wrapping round, is read back word for word |
| RingCodec.ReadBack | common/os/pfwrapper.c:388-421 | encoded records stored anywhere in the ring, wrapping or not, whatever the head: the drain ends with tail equal to head and the array holds exactly what is expected of the records before a straddling skip |
| RingCodec.ReadBackInWindow | common/os/pfwrapper.c:388-421 | with tail and head in one 32-bit window that is everything expected of all the records |
| RingCodec.DeliveredBytes | common/os/os_perf.c:876-877 | each delivered record took at least 48 bytes plus 8 for each counter |
| RingCodec.BufferSuffices | common/os/os_perf.c:876-877 | with three or more counters the record buffer holds all a full ring can deliver, and one more |
| RingCodec.BufferTight | common/os/os_perf.c:876-877 | with exactly three, some stream of every ring size leaves room for only that one |
| RingCodec.BufferOverflows | common/os/os_perf.c:876-877 | hypothetically, with fewer than three events, for every ring of a multiple of 64 bytes from 640 up some stream would deliver more than the buffer holds; every shipped table opens four or more |
| RingCodec.BufferFitsIff | common/os/os_perf.c:876-877 | for each ring size the program chooses, the buffer holds everything any stream can deliver iff at least three events come before the first invalid one |
| PointerChase.LastFreeElem | test/mgen/mgen.c:232-251 | true exactly when one element is unset |
| PointerChase.NextFree | test/mgen/mgen.c:263-272 | the draws passed over are those of indices already set |
| PointerChase.RandArrayInit | test/mgen/mgen.c:253-287 | it finishes iff the draws cover every index, and then following the array from 0 visits all indices once and ends at the one holding N |
| PointerChase.FillBlock | test/mgen/mgen.c:296-305 | one block gets the array's pointers shifted by its base, nothing else changes, and its last element is found |
| PointerChase.RandBufInit | test/mgen/mgen.c:289-312 | as many blocks as fit in the buffer are written, less than one block is left over and untouched; every block holds the path and each block's last element points at the next block's first, the last block's at the start |
| PointerChase.PointerCycle | test/mgen/mgen.c:289-312 | the pointers form one cycle: every element is reached once, block by block, and after nblk*N steps the walk is back at the start |
| PointerChase.WholeBlockVisited | test/mgen/mgen.c:289-312 | stated from the buffer's size: every element of every whole block is on the walk |
| PointerChase.BufInit | test/mgen/mgen.c:314-331 | both phases together, for every draw sequence that covers, every size and every start address: the whole blocks of the buffer form the cycle, every element of them is on it, and less than one block is left over |
| Lifetime.StepKeepsInv | common/proc.c:86-124 | every critical section keeps: counts equal the references held, and an object is reachable, or marked and held, or being freed by one thread, or freed |
| Lifetime.WalkMerges | common/proc.c:72-100 | a drop, free or quit of a thread between two frees of one walk does what it does before the walk or after it, so the walk can be one step |
| Lifetime.RunKeepsInv | common/proc.c:803-839 | so does every run |
| Lifetime.EveryRunIsSafe | common/proc.c:803-839 | in any interleaving nothing is freed twice or while referenced, what is dropped is freed, and no step touches a freed object |
| Lifetime.NoGrantAfterRemoving | common/lwp.c:242-278 | once an object is marked removing no run raises its count or clears the mark |
| Lifetime.FreedTogetherIff | common/lwp.c:99-124 | when a process is freed all its threads are freed if and only if no thread of it is held |
| Lifetime.FreedTogether | common/proc.c:86-124 | if thread references are held only inside process references, a freed process's threads are all freed |
| Lifetime.MoveMatches | common/os/os_perf.c:229-275 | the references held are those of the sampling threads' positions between find and drop |
| Lifetime.MatchesNest | common/os/os_perf.c:241-275 | sampling threads hold a thread only inside its process |
| Lifetime.SamplersFreeTogether | common/os/os_perf.c:241-275 | with any number of samplers beside any refreshes, a freed process's threads are all freed |
| LifetimeProgress.FindGrants | common/proc.c:193-240 | after any run a process that is looked up is granted: its count and the references held rise by exactly one, and it becomes the latest |
| LifetimeProgress.LwpFindGrantsIff | common/lwp.c:242-256 | after any run a thread that is looked up is refused iff it is quitting; otherwise its count and the references held rise by exactly one |
| LifetimeProgress.AddIsFound | common/proc.c:599-618 | a process added can be found, unreferenced and unmarked, unless the latest one has its pid |
| LifetimeProgress.EnumIsFound | common/lwp.c:167-236 | after an enumeration exactly the threads enumerated can be found; the others are freed if unreferenced, else marked |
| LifetimeProgress.ProcDecDrops | common/proc.c:822-839 | a drop takes away exactly one reference, and the last one to a marked process hands it over to be freed |
| LifetimeProgress.LwpDecDrops | common/lwp.c:262-278 | the same for a thread |
| LifetimeProgress.ProcDecFreeFrees | common/proc.c:834-838 | that process is then freed, its unreferenced threads with it and the others marked |
| LifetimeProgress.LwpDecFreeFrees | common/lwp.c:275-277 | and that thread is |
| LifetimeProgress.RemoveTakesOut | common/proc.c:623-653 | a removal takes the process out of the table and the cache, and frees it if unreferenced, else marks it |
| LifetimeProgress.GoneForGood | common/proc.c:623-653 | whatever follows, a process out of the table stays out and no find returns it |
| LifetimeProgress.QuitRefuses | common/lwp.c:367-371 | whatever follows, the count of a quitting thread never rises |
| Libc.QsortDistinct | common/lwp.c:180 | sorting distinct ids gives a strictly increasing list of the same ids |
| Libc.QsortSorts | common/os/os_win.c:161 | sorting any ids gives the same ids, each as often, in order |
| Libc.BSearch | common/os/map.c:283-297 | what a search finds matches, and in an ordered array it misses nothing |
| ProcGroup.LinkFront | common/proc.c:599-618 | a node in front of a chain leaves all links consistent |
| ProcGroup.Unlink | common/proc.c:623-653 | taking out a node leaves the other links and the bucket's head consistent |
| ProcGroup.VisitsAllIff | common/proc.c:130-156 | a traversal visits a prefix of the table in order, and all of it iff it does not reach the count at a bucket's end too soon |
| ProcGroup.CountIsEnough | common/proc.c:130-156 | with the count equal to the table size it never stops too soon |
| ProcGroup.ShortCountLoses | common/proc.c:130-156 | an example: two processes in two buckets, counted as one, and one is missed |
| ProcGroup.FlattenPids | common/proc.c:599-618 | pids in their own buckets are distinct over the whole table |
| ProcGroup.Group.Add | common/proc.c:599-618 | the process becomes the first of its bucket, all else stays |
| ProcGroup.Group.Remove | common/proc.c:623-653 | exactly this process leaves its bucket, and the cache if it was there |
| ProcGroup.Group.Free | common/proc.c:86-124 | freed if unreferenced, else marked, and the count drops only if freed |
| ProcGroup.Group.Find | common/proc.c:193-240 | returns the table's process with this pid, referenced and cached, or null exactly if there is none that is not being removed; then the cache forgets a process with this pid and keeps any other |
| ProcGroup.Group.Sweep | common/proc.c:739-758 | every bucket keeps exactly the reported pids, the others are freed or marked, and the reported pids found are flagged |
| ProcGroup.KeepTable | common/proc.c:739-758 | sweeping the buckets one by one keeps, over the whole table, exactly the reported pids |
| ProcGroup.Group.Populate | common/proc.c:760-768 | reported pids not yet there are added as new objects, unmarked and unreferenced |
| ProcGroup.Group.Traverse | common/proc.c:130-156 | what is visited, and that it is everything iff the traversal does not stop too soon |
| ProcGroup.Group.VisitAll | common/proc.c:130-156 | with the right count a traversal visits every process of the table, in order |
| ProcGroup.Group.CountPids | common/proc.c:770 | a table with exactly the reported pids has as many processes as were reported |
| ProcGroup.Group.Refresh | common/proc.c:725-776 | the table ends with exactly the reported pids, survivors the same objects, new ones unmarked and unreferenced, the vanished freed or marked, links consistent, the count equal to the table size, and both closing traversals visit every process once; if no process of the table was marked, none is |
| ProcGroup.Group.RefreshThenFind | common/proc.c:725-776 | in an unmarked table a find after a refresh returns a process iff its pid was reported: the one that was there, or a new one with this first reference |
| LwpMerge.Lwp.Free | common/lwp.c:99-124 | freed if unreferenced, else marked removing |
| LwpMerge.MergeEnds | common/lwp.c:167-236 | a finished merge is sorted, has exactly the reported ids and every old object among them |
| LwpMerge.LwpList.Merge | common/lwp.c:186-214 | the loop keeps equal ids, adds smaller new ones and frees smaller old ones, each vanished thread by one call |
| LwpMerge.LwpList.EnumUpdate | common/lwp.c:167-236 | the array ends sorted with exactly the reported ids, kept objects the same, new ones unmarked and unreferenced, and exactly the vanished threads freed, each by one call |
| NumaMap.NumaTable.Update | common/os/map.c:317-346 | a chunk extends the encoding of the pages before it to that of all pages, whatever the chunk's size |
| NumaMap.NumaTable.Map2Numa | common/os/map.c:348-381 | the entries are the encoding of all pages, or of the chunks before the call that failed |
| NumaMap.EncodeTiles | common/os/map.c:317-346 | the entries tile the pages in order with no gap, neighbours on different nodes |
| NumaMap.EncodeGaps | common/os/map.c:360-364 | past 4 GiB there is a gap, because page offsets are 32-bit |
| NumaMap.MappingTiledIff | common/os/map.c:348-381 | the entries tile the mapping iff it is at most 4 GiB |
| NumaMap.EncodeNodes | common/os/map.c:317-346 | every byte of page k is in an entry with page k's node |
| NumaMap.MaximalUnique | common/os/map.c:317-346 | a gapless list with different neighbours is determined by the node of each address |
| Latency.OneHit | common/os/os_win.c:799-820 | over disjoint areas a sample raises the total by one iff it is in an area |
| Latency.LatBufHit | common/os/os_win.c:799-820 | the binary search charges the sample to the one area containing it, or to none if there is none |
| Latency.LatBufFill | common/win.c:2230-2258 | every area gets the count and 32-bit latency sum of a linear scan, and the totals are those over all areas |
| Latency.ChargedToOwnNode | common/os/os_win.c:823-854 | a sample in page k of a mapping is in exactly one line, and that line carries page k's node |
| Latency.NoneDropped | common/os/os_win.c:823-854 | samples inside the mapping are all counted |
| Counters.Bump | common/proc.c:874-901 | growing the per-CPU array on demand changes only the one count added to |
| Counters.ChargeOneConserves | common/os/os_perf.c:253-259 | adding one event's delta to process, thread and node keeps counts equal to sums |
| Counters.PassConserves | common/os/os_perf.c:202-279 | a pass keeps them equal, even one that stops at an unknown process or thread |
| Counters.TelescopesIff | common/os/os_perf.c:159-178 | the deltas add up to last minus first iff the counter never falls, and to more otherwise |
| Counters.PassTotals | common/os/os_perf.c:229-275 | a pass adds, on its CPU and node only, the positive increments over the records with valid ids up to the first unknown one |
| Counters.ChargeableSplit | common/os/os_perf.c:229-249 | records are charged in order, up to one that has valid ids but an unknown process or thread |
| Counters.ChargeableOne | common/os/os_perf.c:232-249 | a record is charged iff both its ids are valid and known |
| Counters.PassOwners | common/os/os_perf.c:229-275 | of distinct ids each process and each thread grows, on this CPU only, by exactly the increments of the charged records bearing its own pid and tid, and other nodes are untouched |
| Counters.PassEnds | common/os/os_perf.c:229-279 | the counters kept for the next sample are those of the last record looked at, an unknown one included |
| Sampling.FindNode | common/os/node.c:356-380 | the first valid node holding a CPU, or none exactly if the id is invalid or no valid node holds it |
| Sampling.SetCpuKeeps | common/os/node.c:447-452 | emptying a slot whose CPU was not charged in this sample keeps every node's sum |
| Sampling.SampleCpuKeeps | common/os/os_perf.c:202-279 | sampling one slot keeps the sums, and charges nothing on CPUs of slots still to come |
| Sampling.DropKeeps | common/os/node.c:466-469 | dropping a hot-removed node keeps them |
| Sampling.SampleConserves | common/os/os_perf.c:665-701 | after clearing and a full traversal over distinct CPUs, processes equal their threads' sums and nodes their CPUs' sums |
| SampleTotals.VisitOne | common/os/node.c:445-463 | visiting a slot adds to each process, each thread and the total, on its CPU, what the slot's records bearing their ids come to, and changes no later slot |
| SampleTotals.SampleAdds | common/os/os_perf.c:665-701 | after a whole sample the counts on each CPU of any process, any thread and of all are the positive increments between that CPU's own records that bear their ids, up to the first unknown one, and nothing if its slot was emptied, unmapped or paused, or no slot held the CPU |
| SampleSlots.SampleCpuLast | common/os/os_perf.c:202-279 | a sample leaves in the slot the counters of the last record looked at, the base if there was none after it, or the old ones if it had no records |
| SampleSlots.VisitNodesSlots | common/os/node.c:431-473 | after a traversal every slot of a valid node that awaited removal is empty, every other keeps its CPU and is set up if it was hot-added, and exactly the hot-removed nodes are gone |
| Sampling.Sampler.NodeByCpu | common/os/node.c:356-380 | the two loops find that node |
| Sampling.Sampler.ChargeEvents | common/os/os_perf.c:252-259 | the loop over events charges all five, or none during a partial pause |
| Sampling.Sampler.ChargeBatch | common/os/os_perf.c:229-275 | the loop over records does what a pass does, early returns included |
| Sampling.Sampler.CpuSmpl | common/os/os_perf.c:202-279 | one CPU's sample, with its first record as base |
| Sampling.Sampler.Traverse | common/os/node.c:431-473 | the traversal visits every slot of every valid node in order |
| Sampling.Sampler.Clear | common/proc.c:932-960 | all counts of all processes, threads and nodes are zero |
| Sampling.Sampler.Sample | common/os/os_perf.c:665-701 | after the whole sample every conservation law holds and CPUs are still distinct |
| CpuSlots.AdmitGrew | common/os/os_perf.c:1182-1207 | admitting ids hits the occupied slots reported, fills free ones with reported ids, marked as hot-added unless it is the first refresh, and moves no CPU |
| CpuSlots.RefreshSlots | common/os/os_perf.c:1171-1220 | after a successful refresh a CPU that was there keeps its slot and its mark and awaits removal iff it is not reported or did before; a free slot stays as it was or takes a reported CPU that had none, marked iff this is not the first refresh; every reported id has a slot |
| CpuSlots.DoKeeps | common/os/os_perf.c:1171-1220 | refresh and traversal keep CPUs in distinct slots and in place |
| CpuSlots.RunKeepsOk | common/os/os_perf.c:1171-1220 | so does any run of them |
| CpuSlots.StaysPut | common/os/os_perf.c:1171-1220 | over any run a CPU that never leaves the table never leaves its slot |
| CpuSlots.SetUpOnce | common/os/node.c:447-460 | over any run, while a CPU stays it is set up once if it was marked and some traversal with a hot-add function gets to it, else never, and then the mark is gone |
| CpuSlots.AddedSetUpOnce | common/os/os_perf.c:1193-1203 | a CPU that comes with a later refresh and stays is set up exactly once, by the first such traversal; one of the first refresh never |
| CpuSlots.StaleIff | common/os/node.c:447-452 | a step leaves an empty slot marked iff it removes a CPU that was marked and not set up |
| CpuSlots.StaleHappens | common/os/node.c:447-457 | a run from the empty table after which the hot-add function is called on an empty slot |
| CpuSlots.SettledIff | common/os/os_perf.c:1200-1217 | refresh then traversal leaves exactly the reported ids iff none of them was awaiting removal |
| CpuSlots.PendingHappens | common/os/os_perf.c:1171-1220 | a run from the empty table after which a reported CPU awaits removal, and is dropped by the next refresh and traversal |
| CpuSlots.RefreshRoomIff | common/os/os_perf.c:1187-1189 | a refresh succeeds iff the free slots are enough for the ids that have none |
| CpuSlots.EarlyIff | common/os/node.c:475-501 | stopping after `num` valid slots gives the full sum for all counters iff no more than `num` are valid |
| CpuSlots.SettledSum | common/os/node.c:475-501 | after refresh and traversal the early exit loses nothing |
| CpuSlots.EarlyTooSoon | common/os/node.c:475-501 | between refresh and traversal it can lose a reported CPU |
| CpuSlots.Node.CpuFind | common/os/os_perf.c:1137-1149 | the first slot with the id, or none |
| CpuSlots.Node.FreeIdxGet | common/os/os_perf.c:1151-1169 | the preferred slot if free, else the first free one |
| CpuSlots.Node.CpuArrRefresh | common/os/os_perf.c:1171-1220 | the array and the result are those of the refresh function, which `RefreshSlots` and `RefreshRoomIff` determine |
| CpuSlots.Node.CpuRefresh | common/os/node.c:196-241 | the node's count is set only by a refresh that succeeds |
| CpuSlots.Node.Traverse | common/os/node.c:431-473 | a prefix of the slots is visited, all of them unless a failing callback ends it, and the callback runs, in order, on the CPUs that are then valid and not marked |
| CpuSlots.Node.CountvalSum | common/os/node.c:475-501 | the loop computes the sum with early exit |
| CpuSlots.Node.RefreshedSum | common/os/node.c:475-501 | refresh, traversal and sum together: success iff there is room, and then the sum of all CPUs |
| Symbols.OffCmpContains | common/os/sym.c:743-758 | the 64-bit comparison finds a symbol iff it contains the offset and does not wrap |
| Symbols.Resolve | common/os/sym.c:760-808 | every symbol returned contains the offset; in a table of ordered, separate symbols some are returned iff one contains it; where symbols start all of these are returned |
| Symbols.PickUnique | common/os/sym.c:842-864 | one is picked iff a symbol contains the address; where symbols start it is the first without a leading underscore, else the last |
| Symbols.ResolveUnique | common/os/sym.c:810-864 | the place of a symbol containing the address in the first binary, image before libraries, that has one; none iff all miss |
| Symbols.ChainEntries | common/os/sym.c:902-945 | each entry is that place, or the bare address if nothing is loaded or all binaries miss |
| Symbols.OwnHitIff | common/os/sym.c:866-883 | an entry matches the address it was built from iff its end does not wrap |
| Symbols.OwnMatchIff | common/os/sym.c:866-883 | a chain matches the list it was built from iff no entry wraps |
| Symbols.MatchIff | common/os/sym.c:866-900 | any chain matches exactly the lists whose addresses lie, one by one, in the places of its first entries, those of places that do not wrap |
| Symbols.PlacesNoWrap | common/os/sym.c:866-883 | no entry wraps if every symbol ends and every address leaves 8 bytes below 2^64 |
| CallChain.AddCounts | common/os/sym.c:990-1007 | chains plus their counts grow by exactly one with every add |
| CallChain.AddAllCounts | common/os/sym.c:990-1007 | over any run they grow by the number of adds |
| CallChain.AddAllKeeps | common/os/sym.c:990-1007 | chains in the list keep their place and entries |
| CallChain.AddsToFirst | common/os/sym.c:990-1007 | an add counts exactly the first chain that matches, every other count is unchanged; if none matches a chain with count zero is appended |
| CallChain.CountsFirsts | common/os/sym.c:990-1007 | over any run a chain's count grows by the number of adds for which it was the first match in the list |
| CallChain.NewCountsFirsts | common/os/sym.c:990-1007 | a chain made in a run in which no entry wraps is counted once less than it was the first match |
| CallChain.RepeatAddsNone | common/os/sym.c:990-1007 | an address list seen again makes no second chain, whatever came between, if no entry wraps |
| CallChain.RepeatIff | common/os/sym.c:990-1007 | seen again at once it makes none iff no entry wraps |
| CallChain.RoomAddsNone | common/os/sym.c:990-1007 | nor if every symbol and address leaves room below 2^64, which can be checked beforehand |
| CallChain.WrapAddsTwo | common/os/sym.c:990-1007 | a loaded symbol and an address for which the second add makes a second chain |
| CallChain.ChainList.AttachTail | common/os/sym.c:947-963 | the chain becomes the last, links, ends and count consistent |
| CallChain.ChainList.Detach | common/os/sym.c:965-988 | exactly this chain leaves, links, ends and count consistent |
| CallChain.ChainList.ChainFind | common/os/sym.c:885-900 | the first chain that matches |
| CallChain.ChainList.Add | common/os/sym.c:990-1007 | the first match is counted and no other, else the chain built is appended |
| CallChain.ChainList.MaxAccessChain | common/os/sym.c:1009-1025 | the first chain with the largest count |
| CallChain.ChainList.Resort | common/os/sym.c:1027-1049 | terminates with the same nodes in the order of repeated selection, links consistent |
| StableSort.SelectedStable | common/os/sym.c:1027-1049 | for every count the same chains come in the same order: a permutation, ties in original order |
| StableSort.SelectedFalls | common/os/sym.c:1027-1049 | counts do not rise along the result |
| StableSort.StableUnique | common/os/sym.c:1027-1049 | these two properties determine the result |
| SymLoad.ReadsBounded | common/os/sym.c:703-731 | over any run of loads a region is read at most once for each time it appears |
| SymLoad.ReadsExact | common/os/sym.c:703-731 | over any run a region is read exactly once for each of its stays in the map in which some load for functions shows it executable |
| SymLoad.ReadOnce | common/os/sym.c:703-731 | a region there at every load is read once if some load for functions shows it executable, else never |
| SymLoad.ReadTwice | common/os/map.c:241-247 | a region that goes and comes back is read again |
| SymLoad.ProcMap.EntryFind | common/os/map.c:282-297 | the binary search agrees with a linear search for the exact region |
| SymLoad.ProcMap.Load | common/os/map.c:221-253 | the new map carries over what was known of the same regions; a map that cannot be read changes nothing |
| SymLoad.ProcMap.SymLoad | common/os/sym.c:703-731 | load, then read what waits and is executable |
| CpuRange.ArrayAdd | common/os/os_util.c:365-379 | consecutive ids are written, or there is no room and nothing is; a count of zero or less writes nothing; it reports a write that would fall before the array |
| CpuRange.Extract | common/os/os_util.c:385-435 | for any tokens, backward ranges and unreadable text included, the loop computes the walk over them |
| CpuRange.EscapesIff | common/os/os_util.c:385-435 | a write falls before the array iff a token that adds ids and finds room comes when the tokens before it have taken away more than was added |
| CpuRange.BackwardEscapes | common/os/os_util.c:385-435 | "7-5,3" is such a text, for every array |
| CpuRange.WalkFolds | common/os/os_util.c:385-435 | if it ends with a count of zero or more, the array starts with the ids meant, a backward range taking away from those before it |
| CpuRange.ForwardWalks | common/os/os_util.c:385-435 | without backward ranges it fails iff the array is too small, else the count and the array are those of the expansion |
| CpuRange.PrintRanges | common/os/os_win.c:161-203 | the loop prints the ranges of the sorted ids, separated by single spaces |
| CpuRange.RoundTrip | common/os/os_win.c:136-206 | expanding the ranges gives back the list, for every list |
| CpuRange.PrintedRanges | common/os/os_win.c:136-206 | from distinct ids the ranges expand to the sorted ids and no two could be merged |
| CpuRange.PrintedText | common/os/os_win.c:136-206 | the text for distinct ids: those ranges with one space between any two, an id that stands alone printed alone |
| CpuText.NodeCpuString | common/os/os_win.c:136-206 | collects the usable CPUs of the slots, fills the rest of the node's count with zeros, and prints the ranges of that |
| CpuText.CollectedAll | common/os/os_win.c:145-157 | all usable CPUs are collected, or as many of the first as the node's count |
| CpuText.ShownIff | common/os/os_win.c:151-203 | after a successful refresh the ranges shown expand to the reported ids iff no reported CPU other than 0 was awaiting removal |
| PageHistory.BackAgainIff | common/cmd.c:145-184 | going on by any pages and back as often restores the history iff there was one; else the first of them stays |
| PageHistory.BalancedKeeps | common/cmd.c:145-204 | any run that never goes back further than it came on leaves the history below untouched: back as often as on, in any order, it shows again what it started from |
| PageHistory.HomeForgets | common/cmd.c:252-257 | going home is starting over: nothing before it matters |
| PageHistory.WaitsIff | common/page.c:178-198 | after any run a page waits iff the last command that led to a page started sampling |
| PageHistory.PageList.FreeFrom | common/page.c:222-236 | the pages from the k-th on are freed once each, the count corrected |
| PageHistory.PageList.DropNext | common/page.c:222-241 | exactly the pages after this one are dropped |
| PageHistory.PageList.Append | common/page.c:98-113 | the page becomes the last, links consistent |
| PageHistory.PageList.Create | common/page.c:118-143 | between commands creating drops nothing and appends a page to be shown |
| PageHistory.PageList.NextExecute | common/page.c:178-198 | the waiting page becomes current even if it could not be shown |
| PageHistory.PageList.OpNext | common/cmd.c:145-159 | the new page is the current one, shown, and waits iff sampling starts; refines the stack's push |
| PageHistory.PageList.OpBack | common/cmd.c:167-184 | the page before is the current one, shown, and waits iff sampling starts; the page dropped is the former one, freed once; from the first page nothing changes; refines the stack's pop |
| PageHistory.PageList.OpRefresh | common/cmd.c:186-204 | if sampling starts the current page waits and nothing is shown, else it is shown and nothing waits |
| PageHistory.PageList.RefreshThenShow | common/cmd.c:186-204 | a refresh and then the data: the current page is shown exactly once, by the one or by the other |
| PageHistory.PageList.OpShow | common/disp.c:570-576 | the waiting page is shown, if there is one, and waits no more |
| PageHistory.PageList.Fini | common/page.c:76-93 | every page is freed once |
| PageHistory.PageList.OpHome | common/cmd.c:252-257 | the history restarts with one new page for the command given, shown, waiting iff sampling starts, and every former page freed once |

## Left out

- Ring.MmapPage.constructor: the mask is a remainder, since page sizes are powers of two.
- Lifetime.StepKeepsInv: the walk that frees a process's threads is one step, which `WalkMerges` justifies for the steps of other threads on those threads.
- Ring.MmapPage.Read: byte counts are unbounded; wrap-around of the 64-bit head and tail is not modelled, the 32-bit truncation in skip and reset is. Reads of 8 bytes at 8-byte alignment only, which are all the reader makes, so the split-copy branch is never taken.
- Ring.MmapPage.Record: the head is fixed during a drain; the counter scaling is an uninterpreted parameter because it rounds in floating point; x86 constants, where the powerpc build also rejects an address of zero.
- Ring.MmapPage.SampleRead: samples with more counters than a record has room for, sizes that are not multiples of 8, and buffers too small for what is delivered, are excluded by the preconditions.
- Load-latency sampling (`ll_sample_read`, `pf_ll_record`): when the 32-address limit ends the loop the weight is read from the remaining addresses.
- CpuRange.Extract: it stops where the original would write before its array; what that write damages is not modelled, nor is overflow of the 32-bit ids and totals.
- CpuRange.PrintRanges: text is a sequence of numbers, ranges and separators, not characters, and the output buffer is large enough.
- Counters.Bump: counters are unbounded, not 64-bit.
- Sampling.Sampler.Sample: processes and nodes are values in fields of one object; lookups of processes and threads are functions here, the table behind them is `ProcGroup`.
- CpuSlots.Node.CpuRefresh: one node; the loop over nodes and the largest CPU id are not modelled.
- Sampling.Sampler.ChargeEvents: call chains recorded when an event overflows are not modelled.
- CpuSlots.Node.Traverse: what the callbacks do to a CPU's mapping is not modelled here.
- Symbols.Resolve: which of several overlapping symbols the library's `bsearch` returns is fixed by the model's search, and the contracts do not depend on it; in a table with overlapping symbols of different sizes nothing is promised to be found.
- Symbols.ChainEntries: names are not copied into the chain.
- CallChain.ChainList.Add: access counts are unbounded, not 32-bit.
- SymLoad.ProcMap.Load: the maps file is an input listing disjoint regions in order, as the kernel does; reading symbols from ELF files is a counter.
- ProcGroup.Group.Free: the threads freed with the process are in `Lifetime`; the count of threads is not modelled.
- ProcGroup.Group.Traverse: callbacks do not end a traversal early; none of the refresh does.
- ProcGroup.Group.Refresh: the callbacks of its closing traversals, which refresh and count threads, are `LwpMerge` and not modelled here; `nprocs` is only claimed after a refresh; between refreshes it is decremented by both the removal and the free of a process.
- ProcGroup.Group.Find: mutexes are not in the class; interleavings are `Lifetime`.
- NumaMap.NumaTable.Map2Numa: which call of the kernel's page query fails is an input.
- PageHistory.PageList.NextExecute: drawing a page and starting to sample are inputs.
- PointerChase.BufInit: the buffer is an array of addresses; allocation and binding to a node are not modelled.
- Allocation succeeds everywhere.
- `proc_obsolete`, `proc_group_fini`, sorting of processes for display, node counts under node hotplug, and the mailboxes of the display and perf threads.
- The ncurses display, system calls, ELF and sysfs parsing, CPU model tables.
