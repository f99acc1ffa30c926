# Verified model of ngx_wasm_module

ngx_wasm_module runs WebAssembly filters (Proxy-Wasm) inside nginx. This project models the
parts of it where state is shared, resumed or rewritten in place, and proves what they keep.

| part | modules |
|---|---|
| shared-memory queue: a byte ring that is a FIFO of messages | `ShmQueue`, `ShmRing` |
| shared-memory key/value store: tree, counter, versions and LRU or SLRU queues | `SlabClasses`, `Queues`, `ShmKv`, `ShmKvRuns`, `ShmKvHistory`, `ShmKvEviction`, `ShmKvVersions`, `ShmKvStore` |
| page-wise iteration over the keys of a store | `KeyIterator` |
| metrics: log2 histograms, slots of workers, merging, rebuilding on reload | `Histogram`, `HistogramMass`, `HistogramRuns`, `HistogramMerge`, `HistogramOrder`, `HistogramReload`, `HistogramGrowth`, `HistogramArray`, `Metrics`, `MetricsStore`, `MetricsUpdates` |
| the filter chain: steps that pause and resume | `FilterChain`, `FilterChainRuns`, `FilterChainSteps`, `FilterChainObject` |
| pending HTTP and foreign calls of a filter | `DispatchOps`, `DispatchRuns`, `DispatchActions`, `DispatchObject` |
| pipelines of wasm calls | `OpsPipeline`, `OpsPlan` |
| buffer chains and the request body | `BufferChain`, `BufferAppend`, `BufferOps`, `BufferLoss`, `BufferPool` |
| response buffering | `ResponseMarks`, `ResponseBuffering` |
| marshalled maps | `Pairs`, `PairsFormat`, `PairsMarshal` |
| bytes, machine integers, ranges of indices, optional values, trees | `Bytes`, `Ranges`, `Wrappers`, `Trees` |

Each part has functions on values that say what an operation does, lemmas about all runs of
them, and a class whose methods do the same in place, with the loops of the source, and are
proved to refine those functions. What the outside decides is a parameter: the allocator (it
refuses a number of times, or at given points), the verdict of each filter or call, the state
of a socket, the clock, and the hash function.

`dafny verify dfyconfig.toml` checks the whole project.

## Where the code differs from what one would expect

Each of these is proved for all inputs or runs, with the exact condition; most have a case that
shows it.

- A growing write to the key/value store holds the entry it replaces across the eviction loop,
  which may evict that entry (`ReplacedIsEvictedIff`, `HazardHappens`). Runs are legal when
  this does not happen.
- All used histogram bins but the first are sorted, and all are exactly if the first one is the
  least (`RecordsSorted`, `SortedIff`, `BinsNotSorted`). Merging moves what is counted under
  2^31 to the maximum (`MergeExactPerBound`, `TopJoinsMaximum`), and a reload keeps the counts
  under each bound exactly if there are at most five (`ReloadKeepsBoundsIff`,
  `ReloadLosesBound`).
- Deleting an entry restarts its versions, so a writer that read a version before can pass again
  (`StaleWriterPassesIff`, `VersionComesBack`).
- A gauge that two workers record in the same millisecond reads the value of the first worker,
  whichever recorded last (`GaugeRecordReads`, `TiedGaugeReadsFirst`).
- A local response that is followed by an HTTP dispatch does not end the step
  (`FilterActionIs`).
- The response headers are run again from filter 0 after a pause (`HeadersRunFirstIff`,
  `PausedHeadersStartOver`).
- A successful callback clears the error of a filter that ran and failed, which can then run the
  step a second time (`StepRunsInOrder`, `ClearedRunsTwice`, `RepeatHappens`).
- A call that failed, and whose callback has no context, is destroyed without a callback
  (`SkippedIff`, `SkipHappens`).
- A dispatch callback that traps leaves its own step as the current one, and that step is
  resumed from then on (`ResumesThePausedStepIff`, `TrapChangesResumedStep`).
- A foreign call that a local response cancels is still answered by its resolver, and unlinked a
  second time (`LateAnswerIff`, `LateAnswerHappens`).
- A dropped foreign call continues the environment while other operations are pending
  (`DroppedSettlesIff`, `DroppedUnsettles`).
- A pause in a phase that cannot yield is an error of the next filter, unless it paused the
  response body (`PauseRefused`).
- When every phase so far failed, the next phase starts after as many calls as were executed
  (`StartsAtFirstIff`, `FailureSkipsCall`).
- Appending to a chain loses links unless a condition on its empty links holds (`GoodIff`,
  `AppendSpec`, `AppendLoses`, `LossHappens`).
- An own buffer before the last one is marked as the end of the stream if the ending link does
  not fit where it starts (`EarlyIff`, `EarlyMarkExample`).
- The size of a truncated map is computed over other pairs than those written
  (`SizeSufficesIff`, `SufficesAtLimitIff`, `SizeFallsShort`).

## Model

| member | source | states |
|---|---|---|
| ShmQueue.RunRefinesFifo | src/common/shm/ngx_wa_shm_queue.c:34-233 | every run of pushes and pops over the byte stream answers exactly as a FIFO of messages would, and the stream always is the encoding of that FIFO, of 4 + length bytes per message |
| ShmQueue.FifoConserves | src/common/shm/ngx_wa_shm_queue.c:164-233 | over every run, the messages first waiting followed by those accepted are the messages handed out followed by those still waiting, in that order |
| ShmQueue.PushRefines | src/common/shm/ngx_wa_shm_queue.c:164-190 | a push appends one record if it fits and changes nothing otherwise |
| ShmQueue.PopRefines | src/common/shm/ngx_wa_shm_queue.c:193-233 | a pop takes off the first record; an empty ring or a failed allocation changes nothing |
| ShmQueue.EncodeLength | src/common/shm/ngx_wa_shm_queue.c:34-46 | occupancy is the sum of 4 + length over the waiting messages |
| ShmQueue.QueueFormat | src/common/shm/ngx_wa_shm_queue.c:164-190 | the waiting bytes one by one: each message right behind the one before it, after four bytes that hold its length, least significant first |
| ShmQueue.FillsIff | src/common/shm/ngx_wa_shm_queue.c:164-190 | any sequence of messages is accepted if and only if it fits behind those that wait, with four bytes more for each, up to the last byte of the ring |
| ShmQueue.DrainsAll | src/common/shm/ngx_wa_shm_queue.c:193-233 | as many pops as messages wait hand them all out in order and leave the queue empty |
| ShmQueue.PopReplies | src/common/shm/ngx_wa_shm_queue.c:193-233 | exactly when a pop finds nothing, lacks memory, stops at the assertion for an empty message, or delivers |
| ShmQueue.OversizeIsCut | src/common/shm/ngx_wa_shm_queue.c:164-190 | a message of 2^32 bytes or more is stored with its length wrapped: at the front, its first length mod 2^32 bytes are read, and the rest stays before whatever was pushed later |
| ShmRing.WindowGrows | src/common/shm/ngx_wa_shm_queue.c:64-88 | bytes written circularly behind the window of waiting bytes extend that window, across the end of the buffer |
| ShmRing.WindowSplits | src/common/shm/ngx_wa_shm_queue.c:91-113 | a window read circularly splits into its front and its rest |
| ShmRing.Ring.Occupancy | src/common/shm/ngx_wa_shm_queue.c:34-46 | never more than the capacity; with the rising bit it tells a full ring from an empty one |
| ShmRing.Ring.CircularWrite | src/common/shm/ngx_wa_shm_queue.c:64-88 | writes the data from a position on, going round, and nothing else |
| ShmRing.Ring.CircularRead | src/common/shm/ngx_wa_shm_queue.c:91-113 | reads the window of n bytes from a position on |
| ShmRing.Ring.WriteAndAdvance | src/common/shm/ngx_wa_shm_queue.c:49-88 | the waiting bytes are extended by the data, also when the pointer wraps |
| ShmRing.Ring.ReadAndAdvance | src/common/shm/ngx_wa_shm_queue.c:49-113 | the waiting bytes lose exactly the bytes read |
| ShmRing.Ring.PushLocked | src/common/shm/ngx_wa_shm_queue.c:164-190 | the ring refines the push of the byte stream |
| ShmRing.Ring.PopLocked | src/common/shm/ngx_wa_shm_queue.c:193-233 | the ring refines the pop of the byte stream |
| ShmRing.Ring.RunLocked | src/common/shm/ngx_wa_shm_queue.c:34-233 | any sequence of locked calls on the ring replies as the FIFO does and leaves the encoding of the FIFO in the ring |
| SlabClasses.SizeClass | src/common/shm/ngx_wa_shm_kv.c:69-94 | the class is a valid queue number |
| SlabClasses.SizeClassUnique | src/common/shm/ngx_wa_shm_kv.c:69-94 | the class is the only one that is the least power-of-two class to fit the size |
| SlabClasses.SizeClassMonotone | src/common/shm/ngx_wa_shm_kv.c:69-94 | a larger size never has a smaller class |
| SlabClasses.SlruIndexForSize | src/common/shm/ngx_wa_shm_kv.c:69-94 | the shifting loop computes that class |
| ShmKv.OrderListsAll | src/common/shm/ngx_wa_shm_kv.c:184-253 | the eviction order of a needed size lists every entry of the store exactly once |
| ShmKv.VictimIsFirst | src/common/shm/ngx_wa_shm_kv.c:184-253 | the tail that is evicted is the first entry of the eviction order, and the rest of the order stays |
| ShmKv.EvictTakesPrefix | src/common/shm/ngx_wa_shm_kv.c:310-337 | the allocate-or-evict loop evicts exactly the first entries of the order, one for each refusal of the allocator, or all of them |
| ShmKv.EvictInv | src/common/shm/ngx_wa_shm_kv.c:184-253 | evictions keep tree, counter and queues consistent |
| ShmKv.EvictRemoves | src/common/shm/ngx_wa_shm_kv.c:310-337 | the victims, and only they, leave the tree |
| ShmKv.EvictFails | src/common/shm/ngx_wa_shm_kv.c:310-337 | the loop finds memory exactly when the allocator refuses no more often than there are entries; otherwise it leaves the store empty |
| ShmKv.NoMemoryOnlyWhenEmpty | src/common/shm/ngx_wa_shm_kv.c:310-337 | a store that evicts reports "no memory" only once it is empty |
| ShmKv.RemoveInv | src/common/shm/ngx_wa_shm_kv.c:256-300 | a deletion keeps tree, counter and queues consistent |
| ShmKv.RequeueInv | src/common/shm/ngx_wa_shm_kv.c:97-118 | an entry whose size changes is consistent again once it is in the queue for its new size |
| ShmKv.InsertInv | src/common/shm/ngx_wa_shm_kv.c:339-366 | a new node goes to the tree, the counter and its queue consistently |
| ShmKv.InitInv | src/common/shm/ngx_wa_shm_kv.c:27-66 | an empty store is consistent |
| ShmKvRuns.SetAgrees | src/common/shm/ngx_wa_shm_kv.c:267-387 | every write or deletion, with any evictions, does to the store what it does to a plain map from hashes to (key, value, version): same reply, same entries, and the invariant is kept |
| ShmKvRuns.GetAgrees | src/common/shm/ngx_wa_shm_kv.c:146-181 | a lookup answers as the map does and leaves the entries alone |
| ShmKvRuns.SetInv | src/common/shm/ngx_wa_shm_kv.c:267-387 | every write keeps at most one node per hash, the counter, and every node in exactly the queue for its current size |
| ShmKvRuns.GrowAgrees | src/common/shm/ngx_wa_shm_kv.c:305-366 | the growth path, with the evictions it needs, writes what the map writes |
| ShmKvRuns.DeleteAgrees | src/common/shm/ngx_wa_shm_kv.c:283-300 | a deletion removes the entry of the hash and no other |
| ShmKvRuns.ShrinkAgrees | src/common/shm/ngx_wa_shm_kv.c:367-382 | a value that fits is overwritten in place, and the entry moves to the queue of its new size |
| ShmKvRuns.RefOfAgrees | src/common/shm/ngx_wa_shm_kv.c:121-143 | every consistent store agrees with the map of what it holds |
| ShmKvHistory.RunKeepsInv | src/common/shm/ngx_wa_shm_kv.c:97-387 | after any legal run of gets, writes, deletions and evictions: one node per hash, the counter counts the nodes, each node in exactly one queue, agreement with the map, and every queue ordered by last use |
| ShmKvHistory.StepKeepsInv | src/common/shm/ngx_wa_shm_kv.c:97-387 | each single call keeps all of this |
| ShmKvHistory.StartInv | src/common/shm/ngx_wa_shm_kv.c:27-66 | the empty store starts such a run |
| ShmKvEviction.SlruVictim | src/common/shm/ngx_wa_shm_kv.c:204-238 | for every needed size and the one class whose chunks fit it: the SLRU victim is the entry touched longest ago in the first class with an entry, going up from that class and then down from it; there is none only in an empty store |
| ShmKvEviction.LruVictim | src/common/shm/ngx_wa_shm_kv.c:241-253 | the LRU victim is the entry touched longest ago of all |
| ShmKvEviction.QueueHoldsClass | src/common/shm/ngx_wa_shm_kv.c:97-118 | an SLRU queue holds exactly the entries whose node, key and value together fit its chunks and not those of the class below |
| ShmKvEviction.RefusedOnce | src/common/shm/ngx_wa_shm_kv.c:303-366 | a new or longer value that is refused memory once evicts the victim for node, key and value together, and then takes the place of the prior entry with the next version; unless the prior entry was the victim |
| ShmKvEviction.ShortWriteInPlace | src/common/shm/ngx_wa_shm_kv.c:367-382 | a value that is not longer evicts nothing, whatever the allocator would do, and changes the value and the version of its entry alone |
| ShmKvEviction.LargerEvictedFirst | src/common/shm/ngx_wa_shm_kv.c:204-238 | with chunks from 8 bytes and pages of 4096: of an entry of up to 128 bytes and one of more than 512, the second is evicted for more than 512 bytes |
| ShmKvHistory.ReplacedIsEvictedIff | src/common/shm/ngx_wa_shm_kv.c:303-354 | the entry that a growing write replaces is itself evicted exactly when it is among the first entries of the eviction order, as many as there are refusals |
| ShmKvHistory.HazardHappens | src/common/shm/ngx_wa_shm_kv.c:303-354 | such a case exists: one LRU entry, a longer value, one refusal |
| ShmKvVersions.StepVersion | src/common/shm/ngx_wa_shm_kv.c:267-387 | a successful write had the current version and adds one; a deletion or eviction takes it back to zero; any other call leaves the entry |
| ShmKvVersions.StaleWriteIsInert | src/common/shm/ngx_wa_shm_kv.c:278-281 | a write with a stale version changes nothing at all |
| ShmKvVersions.VersionCountsWrites | src/common/shm/ngx_wa_shm_kv.c:267-387 | while an entry stays, its version is its first one plus the number of successful writes, modulo 2^32 |
| ShmKvVersions.BumpByIsModular | src/common/shm/ngx_wa_shm_kv.c:380-380 | counting versions is addition modulo 2^32 |
| ShmKvVersions.AtMostOneWriterWins | src/common/shm/ngx_wa_shm_kv.c:146-387 | of any writers that read the same version, at most one succeeds while the entry stays and fewer than 2^32 calls are made |
| ShmKvVersions.VersionLaw | src/common/shm/ngx_wa_shm_kv.c:267-387 | after any run, deletions and evictions included, the version is the number of successful writes since the entry was last removed, or else its first version plus the number of writes, modulo 2^32 |
| ShmKvVersions.StaleWriterPassesIff | src/common/shm/ngx_wa_shm_kv.c:278-281 | after any run of fewer than 2^32 other calls, a writer passes the version check if and only if there was neither a write nor a removal, or the entry was removed and since then written as often as the version that the writer read |
| ShmKvVersions.VersionComesBack | src/common/shm/ngx_wa_shm_kv.c:267-387 | such a run: set, delete, set gives the first version again |
| ShmKvStore.Store.RbtreeLookup | src/common/shm/ngx_wa_shm_kv.c:121-143 | finds the node of a hash |
| ShmKvStore.Store.GetLocked | src/common/shm/ngx_wa_shm_kv.c:146-181 | refines the lookup, which moves the entry to the head of its queue |
| ShmKvStore.Store.QueueExpire | src/common/shm/ngx_wa_shm_kv.c:184-201 | removes the tail of one queue from queue, tree and counter |
| ShmKvStore.Store.LruExpire | src/common/shm/ngx_wa_shm_kv.c:241-253 | evicts the victim that `LruVictim` describes, and fails exactly if there is none |
| ShmKvStore.Store.FindQueue | src/common/shm/ngx_wa_shm_kv.c:204-238 | finds the first non-empty queue, upward from the needed class and then downward |
| ShmKvStore.Store.SlruExpire | src/common/shm/ngx_wa_shm_kv.c:204-238 | evicts the victim that `SlruVictim` describes, and fails exactly if there is none |
| ShmKvStore.Store.MakeRoom | src/common/shm/ngx_wa_shm_kv.c:310-337 | the loop refines the eviction function; it terminates as each turn removes an entry |
| ShmKvStore.Store.SetLocked | src/common/shm/ngx_wa_shm_kv.c:267-387 | the write on the object refines the write function, in all its branches |
| KeyIterator.RetrieveKeys | src/common/lua/ngx_wasm_lua_ffi.c:289-314 | the recursive walk stores exactly the keys of the page, at their places, and touches no other slot; if the end of the page is no 64-bit number, it stops before the page |
| Trees.PreorderListsAll | src/common/lua/ngx_wasm_lua_ffi.c:289-314 | the order of the walk lists each node once, before its left and then its right subtree |
| KeyIterator.IterateKeys | src/common/lua/ngx_wasm_lua_ffi.c:317-351 | a page whose end is a 64-bit number holds the keys of the preorder from its start on, at most page-size many; otherwise no key is stored; DONE exactly at the end |
| KeyIterator.IterateAll | src/common/lua/ngx_wasm_lua_ffi.c:289-351 | calling for page after page until DONE yields the whole preorder, each key once |
| KeyIterator.PagesPartition | src/common/lua/ngx_wasm_lua_ffi.c:317-351 | for every page size above zero, the pages in a row are the preorder |
| Histogram.UpperBoundMeaning | src/common/metrics/ngx_wa_histogram.c:10-26 | the bound is at least the value and a power of two below twice the value; it is the maximum exactly for values of 2^31 and more |
| Histogram.UpperBoundIsLog | src/common/metrics/ngx_wa_histogram.c:10-26 | the bound is a power of two or the maximum |
| Histogram.BoundOfBound | src/common/metrics/ngx_wa_histogram.c:10-26 | taking the bound of a bound changes it only for 2^31, which becomes the maximum |
| Histogram.BinLog2UpperBound | src/common/metrics/ngx_wa_histogram.c:10-26 | the shifting loop computes the bound |
| Histogram.PlaceInv | src/common/metrics/ngx_wa_histogram.c:99-141 | finding or making a bin keeps bounds distinct, the maximum as the single last used bin, and no more than 18 bins; the bin has the bound itself exactly if it was there or there is room |
| HistogramOrder.PlaceSorted | src/common/metrics/ngx_wa_histogram.c:99-141 | finding or making a bin keeps all bins behind the first one sorted, and never touches the first one once there are two |
| HistogramMass.PlaceMass | src/common/metrics/ngx_wa_histogram.c:99-141 | making a bin changes no count |
| HistogramRuns.RecordsKeep | src/common/metrics/ngx_wa_histogram.c:240-270 | after any run of records, with growth failing at any point, the histogram is within these limits |
| HistogramRuns.RecordsSum | src/common/metrics/ngx_wa_histogram.c:240-270 | the sum is the total of the recorded values, modulo 2^64 |
| HistogramRuns.RecordsCount | src/common/metrics/ngx_wa_histogram.c:240-270 | the counts add up to the number of records, modulo 2^32 |
| HistogramRuns.CountsAddUp | src/common/metrics/ngx_wa_histogram.c:240-270 | if fewer than 2^32 values were recorded, the counts add up to their number |
| HistogramRuns.RecordsExact | src/common/metrics/ngx_wa_histogram.c:240-270 | every bin counts exactly the records that were put under its bound |
| HistogramRuns.RecordBound | src/common/metrics/ngx_wa_histogram.c:240-270 | each value up to 2^32 - 1 is counted in a bin whose bound is at least the value |
| HistogramOrder.NextClosestBin | src/common/metrics/ngx_wa_histogram.c:121-131 | when there is no room for the bound of a value, it is counted under the least larger bound among the bins behind the first |
| HistogramOrder.RecordsSorted | src/common/metrics/ngx_wa_histogram.c:99-141 | over every run of records the bins behind the first one stay sorted, and the first one stays the same |
| HistogramOrder.MergeSorted | src/common/metrics/ngx_wa_histogram.c:273-308 | merging keeps the bins behind the first one sorted |
| HistogramOrder.SortedIff | src/common/metrics/ngx_wa_histogram.c:99-141 | exactly when all used bins are sorted, for every run of records: if no value is below the maximum, or no bound below that of the first such value gets a bin, which is told from the values and the allocator alone |
| HistogramOrder.RecordsPlaced | src/common/metrics/ngx_wa_histogram.c:99-141 | the bounds in use are those that find room when they first come up, or for which the array grows |
| HistogramRuns.BinsNotSorted | src/common/metrics/ngx_wa_histogram.c:99-141 | a case where they are not: recording 3 and then 2 gives the bins 4, 2, maximum |
| HistogramMerge.MergeConserves | src/common/metrics/ngx_wa_histogram.c:273-308 | merging any histograms of workers conserves the total count and the sum |
| HistogramMerge.MergeNeverLowers | src/common/metrics/ngx_wa_histogram.c:273-308 | merging moves no observation to a lower bound: each cumulative count is at most that of the sources |
| HistogramMerge.MergeExact | src/common/metrics/ngx_wa_histogram.c:273-308 | with room for all distinct bounds, every bin is merged into the bin of its own bound |
| HistogramMerge.MergeExactPerBound | src/common/metrics/ngx_wa_histogram.c:273-308 | then the count of each bound is the sum over the sources, except that what they count under 2^31 joins the maximum and nothing is added under 2^31 |
| HistogramReload.ReloadKeepsBoundsIff | src/common/metrics/ngx_wa_metrics.c:67-86 | a reload keeps the count under every bound if and only if the histograms of all workers have at most five different bounds, that of the maximum included |
| HistogramReload.ReloadLosesBound | src/common/metrics/ngx_wa_metrics.c:67-86 | a reload that loses counts: one worker recorded 1, 2, 4, 8 and 16 |
| HistogramReload.TopJoinsMaximum | src/common/metrics/ngx_wa_metrics.c:67-86 | a value counted under 2^31 is counted under the maximum after a reload |
| HistogramReload.RecordsCounting | src/common/metrics/ngx_wa_histogram.c:240-270 | every bin below the maximum counts something, as the reload result assumes |
| HistogramGrowth.OwnBinsIff | src/common/metrics/ngx_wa_histogram.c:29-76 | while memory is found, over every run of records: five bins are allocated and four more whenever all are in use, up to 18; and every bound that occurs has a bin of its own if and only if there are at most 18 |
| HistogramArray.HistogramSlot.Grow | src/common/metrics/ngx_wa_histogram.c:29-76 | the bins move to a larger array unless the limit or the allocator forbids it |
| HistogramArray.HistogramSlot.InsertBin | src/common/metrics/ngx_wa_histogram.c:133-140 | the shift makes room for one bin and keeps all others |
| HistogramArray.HistogramSlot.Scan | src/common/metrics/ngx_wa_histogram.c:99-119 | the scan finds the bin of the bound, or the place for it |
| HistogramArray.HistogramSlot.Log2Bin | src/common/metrics/ngx_wa_histogram.c:99-141 | the array refines finding or making a bin |
| HistogramArray.HistogramSlot.RecordValue | src/common/metrics/ngx_wa_histogram.c:240-270 | the array refines recording a value |
| HistogramArray.HistogramSlot.MergeAll | src/common/metrics/ngx_wa_histogram.c:273-308 | the nested loops refine the merge of all workers |
| Metrics.GetCounter | src/common/metrics/ngx_wa_metrics.c:34-44 | the loop sums the slots of all workers, modulo 2^64 |
| Metrics.GetGauge | src/common/metrics/ngx_wa_metrics.c:47-64 | the loop picks the value of the slot updated last |
| Metrics.GaugeReadsLatest | src/common/metrics/ngx_wa_metrics.c:47-64 | a gauge reads the slot that was updated last, the first one among equals |
| MetricsUpdates.DefineIs | src/common/metrics/ngx_wa_metrics.c:279-349 | a name is refused exactly if it is too long, or it is new and no memory is found; a known id stays as it is; a new metric has a slot for each worker and reads zero |
| MetricsUpdates.IncrementAdds | src/common/metrics/ngx_wa_metrics.c:362-410 | for every store, id, slot and number: declined exactly if the id is unknown, a misuse exactly on another type or slot; otherwise the counter reads the sum modulo 2^64, and no other metric changes |
| MetricsUpdates.SignedIncrementAdds | src/common/metrics/ngx_wa_metrics.c:362-410 | an offset of either sign adds itself to the reading, modulo 2^64, and no other metric changes |
| MetricsUpdates.CountersAddUp | src/common/metrics/ngx_wa_metrics.c:362-477 | over any run of increments and records by all workers on all metrics, a counter reads what it read before plus all increments made to it, modulo 2^64 |
| MetricsUpdates.RecordRc | src/common/metrics/ngx_wa_metrics.c:422-477 | a record is declined exactly if the id is unknown, a misuse exactly for a counter or without a slot; then nothing changes |
| MetricsUpdates.GaugeRecordReads | src/common/metrics/ngx_wa_metrics.c:451-454 | a value recorded in a gauge at a time that no slot is ahead of is the one read, unless a worker before recorded at the same time: then the first such value stays; no other metric changes |
| MetricsUpdates.TiedGaugeReadsFirst | src/common/metrics/ngx_wa_metrics.c:47-65 | such a case: two workers record in the same millisecond, and the value recorded last is not read |
| MetricsUpdates.HistMergeReads | src/common/metrics/ngx_wa_metrics.c:68-88 | the histograms of an old metric are added to those a metric has: counts and sums read add up, and no other metric changes |
| MetricsUpdates.HistRecordReads | src/common/metrics/ngx_wa_metrics.c:422-477 | a value recorded in a histogram adds one to the count read and itself to the sum read, and no other metric changes |
| Metrics.RecordReads | src/common/metrics/ngx_wa_metrics.c:422-477 | a value recorded by any worker adds one to the total count and itself to the sum |
| Metrics.HistReads | src/common/metrics/ngx_wa_metrics.c:485-529 | a histogram reads the total count and sum of all workers |
| MetricsStore.MigrateOne | src/common/metrics/ngx_wa_metrics.c:89-154 | one metric is moved to the new store exactly when its name fits and memory is found; it then reads as before, and nothing else changed |
| MetricsStore.MigrateAll | src/common/metrics/ngx_wa_metrics.c:89-154 | rebuilding all metrics for any number of workers succeeds exactly when all names fit and memory is found for all; then every counter, every gauge and the count and sum of every histogram read as before |
| MetricsStore.HistMigrates | src/common/metrics/ngx_wa_metrics.c:67-86 | a histogram merged into the first slot reads the same count and sum |
| MetricsStore.NewStore.DefineMetric | src/common/metrics/ngx_wa_metrics.c:279-354 | too long a name, a known id and missing memory are told apart; otherwise a zeroed metric is added |
| MetricsStore.NewStore.Increment | src/common/metrics/ngx_wa_metrics.c:362-410 | refines the increment that `IncrementAdds` describes |
| MetricsStore.NewStore.RecordValue | src/common/metrics/ngx_wa_metrics.c:422-477 | refines the records that `GaugeRecordReads` and `HistRecordReads` describe, on the slot in place |
| MetricsStore.NewStore.MigrateMetric | src/common/metrics/ngx_wa_metrics.c:103-139 | one step of the rebuild, by type of metric |
| MetricsStore.NewStore.ReallocMetrics | src/common/metrics/ngx_wa_metrics.c:89-154 | the recursive walk rebuilds the metrics of the old tree in preorder and stops at the first failure |
| FilterChainRuns.StepRunsInOrder | src/common/proxy_wasm/ngx_proxy_wasm.c:624-757 | for any verdicts and any schedule of resumes, actions and callbacks of which none succeeds on a filter that ran and failed and that the chain stands at, the filters that ran a request step begun at the first filter are 0, .., k - 1, in order and each once; all of them once the step is completed |
| FilterChainRuns.IndexNeverExceeds | src/common/proxy_wasm/ngx_proxy_wasm.c:624-757 | over any run of resumes of any steps, exec_index never exceeds the number of filters |
| FilterChainRuns.ClearedRunsTwice | src/common/proxy_wasm/ngx_proxy_wasm.c:624-894 | that condition is exact: after any such run, a successful callback on the failed filter can be followed by a resume that runs this filter a second time |
| FilterChainRuns.ClearedIff | src/common/proxy_wasm/ngx_proxy_wasm.c:862-893 | a callback clears the error of its filter if and only if it neither traps nor fails nor is cut short by a local response |
| FilterChainRuns.RepeatHappens | src/common/proxy_wasm/ngx_proxy_wasm.c:624-894 | such a run: the first filter traps, a callback succeeds, and the filter is listed twice |
| FilterChainRuns.FailedNeverRuns | src/common/proxy_wasm/ngx_proxy_wasm.c:470-495 | a filter that failed is not run again in any step, unless a callback clears its error |
| FilterChainRuns.ResponseRestarts | src/common/proxy_wasm/ngx_proxy_wasm.c:645-651 | however the request steps ended, the first response headers start at filter 0, and run it exactly when it has no error and the action is to continue |
| FilterChainRuns.HeadersStartAt | src/common/proxy_wasm/ngx_proxy_wasm.c:645-651 | every resume of the response headers starts at filter 0 until that step is completed, and at exec_index afterwards |
| FilterChainRuns.HeadersRunFirstIff | src/common/proxy_wasm/ngx_proxy_wasm.c:645-651 | a resume of the response headers runs filter 0, for the first time or again, exactly if the step is not completed or exec_index is 0, and that filter has no error, has a context, and the action is to continue |
| FilterChainRuns.PausedHeadersStartOver | src/common/proxy_wasm/ngx_proxy_wasm.c:645-651 | so the response headers are not run once per filter: a pause by the first of two filters makes the next resume run it again |
| FilterChainRuns.PausedRunsNothing | src/common/proxy_wasm/ngx_proxy_wasm.c:681-686 | while the action is to pause, a resume runs no filter and changes no more than the step |
| FilterChainRuns.ContinuingCompletes | src/common/proxy_wasm/ngx_proxy_wasm.c:668-746 | when all remaining filters continue, each of them runs and the step completes |
| FilterChainRuns.DoneEndsResume | src/common/proxy_wasm/ngx_proxy_wasm.c:505-518 | a filter that is done, by a host call or by what it returns, ends the resume: no later filter runs, and later phases continue behind it |
| FilterChainRuns.FailureEndsResume | src/common/proxy_wasm/ngx_proxy_wasm.c:694-702 | a filter that traps, fails or returns an unknown action ends the resume with its error code, and the index stays at it |
| FilterChainRuns.PauseYields | src/common/proxy_wasm/ngx_proxy_wasm.c:704-745 | a filter that pauses yields with the index behind it, and completes the step if it was the last one |
| FilterChain.ResumeStands | src/common/proxy_wasm/ngx_proxy_wasm.c:624-757 | every resume but that of the final step runs a contiguous range of filters and ends before the next one, past the completed step, or at the filter that failed or paused the response body; which of these in the response body, `PausedBodyIsCurrent` says |
| FilterChainSteps.PausedBodyIsCurrent | src/common/proxy_wasm/ngx_proxy_wasm.c:704-731 | a resume of the response body that ends with the action to pause leaves the index at the filter that ran last, for any verdicts and any number of filters |
| FilterChainSteps.BodyPauseStays | src/common/proxy_wasm/ngx_proxy_wasm.c:704-731 | a filter that pauses the response body runs alone and stays the current one: index and completed step are as before, and the reply is to yield unless the next filter has an error |
| FilterChainSteps.BodyEnteredAgain | src/common/proxy_wasm/ngx_proxy_wasm.c:704-731 | once the action is to continue, the next resume of the response body enters the filter that paused it again, before any other |
| FilterChainSteps.StartsRunningIff | src/common/proxy_wasm/ngx_proxy_wasm.c:664-702 | a resume that is not skipped runs the filter it starts at if and only if the action is to continue, the filter has no error and a context is found for it |
| FilterChainSteps.PauseRefused | src/common/proxy_wasm/ngx_proxy_wasm.c:570-583 | where the phase cannot yield, a pause fails the resume, and its error goes to the filter at the index: the paused one in the response body, the next one otherwise |
| FilterChainSteps.CompletedStepsSkipped | src/common/proxy_wasm/ngx_proxy_wasm.c:634-662 | of two steps of a request completed in a row, the second runs no filter exactly if it is the first one or an earlier one, and not the headers or the body of the response |
| FilterChainSteps.StepsRunAgain | src/common/proxy_wasm/ngx_proxy_wasm.c:634-662 | response headers and body, ticks, dispatch responses and upstream steps run whatever was completed before |
| FilterChainSteps.CallbackLeaves | src/common/proxy_wasm/ngx_proxy_wasm.c:760-887 | a callback out of turn moves neither index nor completed step, restores the paused step unless it was a dispatch response that failed, and changes no error code but its own |
| FilterChainSteps.DoneRunsAll | src/common/proxy_wasm/ngx_proxy_wasm.c:500-508 | the final step runs every filter from the index on, whatever the action is and whatever filters return, up to the first without an instance |
| FilterChainObject.Chain.ActionToRc | src/common/proxy_wasm/ngx_proxy_wasm.c:450-621 | the return code of an action, with its side effects on action and error code |
| FilterChainObject.Chain.RunFilter | src/common/proxy_wasm/ngx_proxy_wasm.c:760-894 | a filter run takes the returned action unless a host call set it to done |
| FilterChainObject.Chain.ResumeStep | src/common/proxy_wasm/ngx_proxy_wasm.c:624-757 | the loop refines the resume, and runs the filters that it lists |
| DispatchRuns.EveryHttpCallEndsOnce | src/http/proxy_wasm/ngx_http_proxy_wasm_dispatch.c:422-513 | over any run of starts, completions, failures and cancellations, an HTTP call is pending with nothing but its queueing done, or it left the queue once, then was called back or cancelled or neither, then was destroyed once |
| DispatchRuns.SkippedIff | src/common/proxy_wasm/ngx_proxy_wasm.c:780-786 | an HTTP call ends in exactly one of callback and cancellation, except, over every run, if and only if it failed and no context could be made for its callback: then it ends in neither |
| DispatchRuns.SkipHappens | src/common/proxy_wasm/ngx_proxy_wasm.c:780-786 | such a call: its socket fails and its instance cannot be made |
| DispatchRuns.RunKnown | src/http/proxy_wasm/ngx_http_proxy_wasm_dispatch.c:764-961 | after any run the queue, the memory and the outstanding resolvers agree with what happened to each operation |
| DispatchRuns.CompletionCallsBack | src/http/proxy_wasm/ngx_http_proxy_wasm_dispatch.c:894-930 | a call that completes or fails is destroyed once, and called back before if and only if its callback has a context, also when the callback cancels all pending operations |
| DispatchRuns.LocalResponseCancels | src/common/proxy_wasm/ngx_proxy_wasm.c:913-946 | a local response cancels exactly the pending operations, and not the one whose callback sends it |
| DispatchRuns.ResumesOnlyWhenIdle | src/http/proxy_wasm/ngx_http_proxy_wasm_dispatch.c:932-957 | a completion resumes the paused step exactly when it leaves the queue empty and reports no error; with an error or without, environment and action continue exactly when the queue is empty, and otherwise the environment yields and the action is to pause |
| DispatchRuns.ResumedStepRuns | src/http/proxy_wasm/ngx_http_proxy_wasm_dispatch.c:943-957 | the step that a completion resumes is under way again: the filter the chain stands at runs, unless it has an error or no context |
| DispatchActions.FilterActionIs | src/common/proxy_wasm/ngx_proxy_wasm.c:863-875 | the action after a filter ran: a local response ends the step whatever the filter returns, unless an HTTP call is dispatched after it; in all other cases the returned action counts |
| DispatchActions.WaitingCallStays | src/http/proxy_wasm/ngx_http_proxy_wasm_dispatch.c:796-873 | a call whose socket is not ready stays pending in the state it has come to, the environment yields, and no other operation changes |
| DispatchActions.GoesOnWhereItWaited | src/http/proxy_wasm/ngx_http_proxy_wasm_dispatch.c:796-873 | it later arrives exactly if the stages from there on succeed: no call is connected or sent twice |
| DispatchRuns.DroppedSettlesIff | src/common/proxy_wasm/ngx_proxy_wasm_foreign_call.c:172-179 | a foreign call dropped for want of a buffer breaks that exactly when other operations are pending |
| DispatchRuns.DroppedUnsettles | src/common/proxy_wasm/ngx_proxy_wasm_foreign_call.c:172-179 | such a run: an HTTP call and a foreign call are pending, and the latter is dropped |
| DispatchRuns.ResumesThePausedStepIff | src/http/proxy_wasm/ngx_http_proxy_wasm_dispatch.c:55-98 | over every run of completions, an event that resumes a step resumes the paused one if and only if neither it nor an earlier one ran a dispatch callback that trapped; otherwise it resumes the dispatch-response step |
| DispatchRuns.StepAfterRun | src/http/proxy_wasm/ngx_http_proxy_wasm_dispatch.c:55-98 | the current step is the paused one until a dispatch callback traps, and the dispatch-response step from then on |
| DispatchRuns.TrapChangesResumedStep | src/http/proxy_wasm/ngx_http_proxy_wasm_dispatch.c:55-98 | such a case: a dispatch callback traps, and a foreign call completes last |
| DispatchRuns.LateAnswerIff | src/common/proxy_wasm/ngx_proxy_wasm_foreign_call.c:13-17 | over every run, the resolver of a foreign call may answer when the call is not pending if and only if a filter or a callback of the run sent a local response while the call was pending |
| DispatchRuns.ForeignEndsOnce | src/common/proxy_wasm/ngx_proxy_wasm_foreign_call.c:13-78 | in all other runs a foreign call ends at most once, or is dropped without a buffer |
| DispatchRuns.LateAnswerHappens | src/common/proxy_wasm/ngx_proxy_wasm_foreign_call.c:13-17 | such a case: a filter starts a foreign call and then sends a local response |
| DispatchRuns.ArrivesIff | src/http/proxy_wasm/ngx_http_proxy_wasm_dispatch.c:792-892 | a call arrives exactly when all stages ahead of it succeed at once and the instance has not trapped |
| DispatchRuns.WaitsIff | src/http/proxy_wasm/ngx_http_proxy_wasm_dispatch.c:796-873 | a call waits exactly at the first stage that is not ready, and never goes back |
| DispatchRuns.QuietFailureIff | src/http/proxy_wasm/ngx_http_proxy_wasm_dispatch.c:817-833 | a failed call reports no error exactly when its request could not be built right after the connection was made |
| DispatchObject.Pending.OpsTotal | src/common/proxy_wasm/ngx_proxy_wasm.c:897-909 | the loop counts the pending operations |
| DispatchObject.Pending.OpsCancel | src/common/proxy_wasm/ngx_proxy_wasm.c:913-946 | the loop empties the queue, cancelling and destroying each operation once |
| DispatchObject.Pending.Host | src/common/proxy_wasm/ngx_proxy_wasm_host.c:1138-1157 | starts of operations and local responses refine the host calls |
| DispatchObject.Pending.InvokeCallback | src/http/proxy_wasm/ngx_http_proxy_wasm_dispatch.c:55-98 | the callback runs in its own step, which is restored unless a dispatch callback fails; without a context nothing runs |
| DispatchObject.Pending.Progress | src/http/proxy_wasm/ngx_http_proxy_wasm_dispatch.c:792-892 | the states of a call fall through from connecting to received, and stop where the socket has to wait or fails |
| DispatchObject.Pending.ResumeHandler | src/http/proxy_wasm/ngx_http_proxy_wasm_dispatch.c:764-961 | the handler of a ready socket refines the HTTP event |
| DispatchObject.Pending.ForeignHandler | src/common/proxy_wasm/ngx_proxy_wasm_foreign_call.c:22-78 | the callback of a foreign call refines the foreign event, and an answer for a call that is not pending any more is told apart |
| OpsPipeline.EachCallOnce | src/wasm/ngx_wasm_ops.c:244-397 | over any number of yields and resumes of a phase, each call from the start index on is executed at most once and in plan order; all of them are once a resume is declined, and a finished phase executes none |
| OpsPipeline.StartsAtFirstIff | src/wasm/ngx_wasm_ops.c:263-271 | a phase that was not resumed before starts at its first call if and only if some earlier resume did not report an error, or no call was executed yet |
| OpsPipeline.FailureSkipsCall | src/wasm/ngx_wasm_ops.c:263-271 | otherwise calls are skipped: after the only call of the first phase failed, a phase of two calls executes the second alone |
| OpsPipeline.PhaseRuns | src/wasm/ngx_wasm_ops.c:244-329 | resumes of one phase execute consecutive calls from the index on |
| OpsPipeline.RunsFromIndex | src/wasm/ngx_wasm_ops.c:332-397 | one resume executes the calls from the current index up to the new one |
| OpsPipeline.ReturnsUntilYield | src/wasm/ngx_wasm_ops.c:332-397 | all of these calls return but the last one, and the resume yields exactly when that one does |
| OpsPipeline.ErrorIff | src/wasm/ngx_wasm_ops.c:332-397 | a resume reports an error exactly when a call fails or has no instance, and the index tells which |
| OpsPipeline.MissingFunctionStops | src/wasm/ngx_wasm_ops.c:332-397 | a call without a function fails every resume that comes to it, even one that is past it |
| OpsPlan.IndexIsLastPosition | src/wasm/ngx_wasm_ops.c:139-174 | loading gives a call its position in the last phase that it runs on |
| OpsPlan.PlanInPlace | src/wasm/ngx_wasm_ops.c:78-174 | in a plan whose calls run on one phase each, all indices are the positions |
| OpsPlan.DirectivePlan | src/http/ngx_http_wasm_directives.c:76-96 | every plan that call directives build: the pipeline of a phase holds the directives of that phase in the order they are written, and all indices are positions |
| OpsPlan.DirectivesRunOnce | src/wasm/ngx_wasm_ops.c:78-397 | for every plan of call directives and every phase, over any number of yields and resumes, the directives of the phase from the start index on are executed in order, each at most once; all are once a resume is declined, and then none |
| OpsPlan.Plan.Add | src/wasm/ngx_wasm_ops.c:78-115 | the loops append each operation to the pipelines of its phases |
| OpsPlan.Plan.LoadPlan | src/wasm/ngx_wasm_ops.c:118-174 | the loops give the indices, once |
| OpsPlan.OpCtx.CallHandler | src/wasm/ngx_wasm_ops.c:332-397 | skips, executes or fails one call |
| OpsPlan.OpCtx.ResumePhase | src/wasm/ngx_wasm_ops.c:244-329 | the loop refines the resume of a phase and executes the calls that it lists |
| BufferOps.AppendSpec | src/wasm/ngx_wasm_util.c:230-327 | append yields the first bytes up to the offset followed by the string, in a chain whose last link alone holds the string, within its memory, and the end and flush flags; chain and free list stay disjoint |
| BufferOps.AppendOkIff | src/wasm/ngx_wasm_util.c:230-327 | exactly when an append succeeds: from the links that the cleared chain frees, the free list and the allocator |
| BufferLoss.AppendLoses | src/wasm/ngx_wasm_util.c:251-283 | under the opposite condition, some non-empty link is not in the chain any more, whatever path is followed |
| BufferLoss.GoodIff | src/wasm/ngx_wasm_util.c:251-283 | the condition, plainly: no link is non-empty after the clear, or the first one is and none comes right after an empty link of the same tag |
| BufferLoss.PrefixIsGood | src/wasm/ngx_wasm_util.c:251-283 | the condition holds in particular when the non-empty links come first |
| BufferLoss.LossHappens | src/wasm/ngx_wasm_util.c:251-283 | an empty link of another owner before a link with data: after an append at any offset past the start, the link with the data is not in the chain, which holds the new bytes alone |
| BufferChain.ClearKeepsPrefix | src/wasm/ngx_wasm_util.c:63-116 | clearing keeps exactly the bytes before the offset, and tells how many were missing |
| BufferChain.ClearOne | src/wasm/ngx_wasm_util.c:63-116 | clearing removes all flags and leaves memory and tag of each link |
| BufferAppend.ScanKeeps | src/wasm/ngx_wasm_util.c:251-283 | the search for the tail keeps exactly the non-empty links, in order, apart from the free list |
| BufferAppend.GetFreeApart | src/wasm/ngx_wasm_util.c:119-204 | the link that is found is in neither list, empty and large enough; nothing else changes |
| BufferAppend.GetFreeIff | src/wasm/ngx_wasm_util.c:119-204 | exactly when a link is found, which one it is, and whether its memory is its own or new memory of the size asked for |
| BufferOps.AppendFails | src/wasm/ngx_wasm_util.c:285-288 | an append without memory leaves the links that hold the bytes before the offset, without their flags |
| BufferOps.PrependSpec | src/wasm/ngx_wasm_util.c:207-227 | prepend yields the string followed by the old bytes, and leaves the other links alone |
| BufferOps.PrependOkIff | src/wasm/ngx_wasm_util.c:207-227 | exactly when a prepend succeeds |
| BufferOps.PrependFails | src/wasm/ngx_wasm_util.c:207-227 | a prepend without memory leaves the chain as it was |
| BufferOps.ChainLenIff | src/wasm/ngx_wasm_util.c:39-60 | the length is that of the whole chain exactly when no byte follows the first link that ends the stream |
| BufferOps.ChainLenIs | src/wasm/ngx_wasm_util.c:39-60 | the bytes counted are those up to the first link that ends the stream, and of that link |
| BufferPool.Pool.ChainLength | src/wasm/ngx_wasm_util.c:39-60 | the loop computes that length and tells whether the stream ends |
| BufferPool.Pool.ChainClear | src/wasm/ngx_wasm_util.c:63-116 | the loop refines the clear and collects the flags |
| BufferPool.Pool.GetFreeBuf | src/wasm/ngx_wasm_util.c:119-204 | reuse, new memory and a new link, with the failures of each |
| BufferPool.Pool.FindTail | src/wasm/ngx_wasm_util.c:251-283 | the pointer loop refines the search for the tail |
| BufferPool.Pool.AppendTo | src/wasm/ngx_wasm_util.c:230-327 | the append on pointers refines the append function |
| BufferPool.Pool.PrependTo | src/wasm/ngx_wasm_util.c:207-227 | the prepend on pointers refines the prepend function |
| BufferPool.RequestBody.SetReqBody | src/http/ngx_http_wasm_util.c:266-294 | exactly when a link is found for it, the body becomes its first bytes up to the offset followed by at most max bytes, and the content length is its length; when no memory is found, the bytes before the offset are left, without flags, and the content length is as before |
| BufferPool.RequestBody.PrependReqBody | src/http/ngx_http_wasm_util.c:297-322 | exactly when a link is found for it, the body becomes the string followed by the old body, and the content length grows by the string; on an error both are as before |
| ResponseBuffering.ResponseBuffers.BufferBody | src/http/ngx_http_wasm_filter_module.c:293-407 | on OK and on DONE the buffered bytes are the old ones followed by the incoming ones (on DONE exactly if a buffer is configured); own buffers are at most the configured number, all but the last are full, and all are full on DONE; the end of the stream is kept; own buffers are marked with it exactly if they hold bytes of the ending link, with the exact condition for an early mark; OK means that the own buffers hold all bytes, DONE that as many as configured do not, and an error that they are all full and the next one was refused |
| ResponseBuffering.ResponseBuffers.CopyLink | src/http/ngx_http_wasm_filter_module.c:324-399 | the copy loop terminates with all bytes copied, or with the remaining ones when buffers or memory run out |
| ResponseBuffering.ResponseBuffers.KeepRest | src/http/ngx_http_wasm_filter_module.c:331-338 | the links that remain are kept behind the full buffers without losing bytes |
| ResponseMarks.EarlyIff | src/http/ngx_http_wasm_filter_module.c:384-386 | told before the call, from the room in the buffer being filled, the sizes of new buffers and the lengths of the links: an own buffer before the last one is marked as the end of the stream if and only if the ending link starts in an own buffer and is longer than the room left there |
| ResponseBuffering.EarlyMarkExample | src/http/ngx_http_wasm_filter_module.c:384-386 | such a case: two buffers of one byte and an ending link of two bytes |
| Pairs.RoundTrip | src/common/proxy_wasm/ngx_proxy_wasm_util.c:354-534 | reading an encoded map gives back its pairs, whatever follows it |
| Pairs.MarshalRoundTrip | src/common/proxy_wasm/ngx_proxy_wasm_util.c:354-534 | a marshalled table reads back as the first pairs, at most max, of the extras followed by the live entries |
| Pairs.EncodedSize | src/common/proxy_wasm/ngx_proxy_wasm_util.c:354-461 | the bytes of an encoded map |
| PairsFormat.MapEnds | src/common/proxy_wasm/ngx_proxy_wasm_util.c:354-461 | the first four bytes are the number of pairs, least significant first, and the map ends behind the last pair |
| PairsFormat.PairFormat | src/common/proxy_wasm/ngx_proxy_wasm_util.c:354-461 | the format of every pair: lengths of key and value at 4 + 8i, least significant byte first; key, a zero byte, value, a zero byte at the offset that the pairs before it leave |
| Pairs.LiveAt | src/common/proxy_wasm/ngx_proxy_wasm_util.c:391-416 | of the entries of a part, those that were not removed are passed, in their order, and no others |
| Pairs.PartsInOrder | src/common/proxy_wasm/ngx_proxy_wasm_util.c:391-416 | the parts of a table follow one another |
| Pairs.SelectedAt | src/common/proxy_wasm/ngx_proxy_wasm_util.c:363-416 | first all extras and then the live entries, up to the limit |
| PairsMarshal.PairsCount | src/common/proxy_wasm/ngx_proxy_wasm_util.c:252-282 | the loop over the parts of the list counts the live entries |
| PairsMarshal.PairsSize | src/common/proxy_wasm/ngx_proxy_wasm_util.c:285-351 | the loops compute the size of the pairs they count: live entries up to max, then extras up to one past the rest |
| PairsMarshal.SizeSufficesIff | src/common/proxy_wasm/ngx_proxy_wasm_util.c:285-461 | the size is that of the encoded map when no pair is left out; otherwise it suffices if and only if the extras that are written but not counted take no more than the live entries that are counted but not written |
| PairsMarshal.SufficesAtLimitIff | src/http/ngx_http_wasm_util.c:484-484 | at the limit of 100 pairs that filters have, with as many live entries: the size suffices if and only if the extras but the first take no more than the live entries that they push out |
| PairsMarshal.SizeFallsShort | src/common/proxy_wasm/ngx_proxy_wasm_util.c:285-461 | a case at that limit where it does not suffice: 100 empty entries and two extras, one with a key of eleven bytes |
| PairsMarshal.Marshal | src/common/proxy_wasm/ngx_proxy_wasm_util.c:354-461 | the two passes write exactly the encoding of the selected pairs, and report truncation exactly when pairs are left out |
| PairsMarshal.Unmarshal | src/common/proxy_wasm/ngx_proxy_wasm_util.c:464-534 | the two passes read what the decoding function reads |

## Left out

- nginx's own rbtree, slab allocator, pools and queues: a tree is a map from addresses to nodes, or a tree value; the allocator may refuse at any call.
- Locking: every `_locked` function is one atomic step.
- ShmRing.Ring.PopLocked: requires that the front record is complete, which every push establishes; assertions that only debug builds make are a parameter.
- ShmKvVersions.AtMostOneWriterWins: requires that the entry stays and that fewer than 2^32 calls are made; `StaleWriterPassesIff` says what holds across deletions and evictions.
- ShmKvHistory.RunKeepsInv: requires runs in which no replaced entry is evicted; what the code does after that is not modelled.
- HistogramMerge.MergeNeverLowers: requires a total count below 2^32, since counts wrap.
- HistogramMerge.MergeExact: requires a total count below 2^32, since counts wrap.
- HistogramMerge.MergeExactPerBound: requires a total count below 2^32, since counts wrap.
- HistogramReload.ReloadKeepsBoundsIff: requires a total count below 2^32, since counts wrap, and that bins below the maximum count something, as `RecordsCounting` proves.
- HistogramArray.HistogramSlot.InsertBin: the overlapping copy that makes room for a bin is modelled as one that handles the overlap.
- Histograms with custom bins, and their loss on reload: only log2 histograms are modelled.
- The memory of buffers beyond its size: positions within a buffer are a byte sequence, and buffers backed by files are not modelled.
- BufferPool.RequestBody.SetReqBody: requires the condition of `GoodIff`; `AppendLoses` covers the rest. Where the last link leads after a failed allocation is not told.
- BufferPool.Pool.AppendTo: models `extend` as zero, as all callers pass it.
- ResponseBuffering.ResponseBuffers.BufferBody: models the chain as a sequence of buffers, without the flush flag; the link that ends the stream must be the last incoming one.
- FilterChain.Action2rc: a pause that the last filter returns in a phase that cannot yield records its error past the last filter; the model records it nowhere.
- DispatchOps.Handle: the pending operations are those of one filter; what a resumed step does to the filter is a further event.
- DispatchOps.LateAnswer: the run ends there; what unlinking an operation that is not linked does to the queue is not modelled.
- DispatchOps.DriveCall: the socket, TLS, name resolution and the HTTP reader are parameters.
- PairsMarshal.Unmarshal: a map whose lengths lead past its end is reported as malformed; the code does not check this.
- PairsMarshal.Marshal: requires room for what is written, which `SizeSufficesIff` says when the allocated size gives; and lengths below 2^32, and a little-endian host.
- Pipelines that mix calls with filter chains, and phases entered from inside an operation. Directives make calls for one phase each; the loader itself would also take calls for several.
- Percent-escaping of URIs and headers: it would only add easier members.
- Directives, properties, header setters, access control lists, the Lua bridge, WASI and the runtimes.
