# A verified model of the kfs storage core

The C code under `fs/` keeps a small file system's data in a write-back page cache, its free space in
bitmaps, its names in hashes and its short-lived memory in an intrusive list. This project models that
core in Dafny and proves what the rest of the file system relies on.

* `PageCacheSpec.dfy`, `PageCache.dfy`: the page cache with whole calls and whole flusher visits as steps.
  The specification is a state machine on values; the class `Cache` carries out the C code's scans and
  in-place updates and is proved against it. The main theorem is transparency: through the cache, clients
  see a plain array of blocks that nothing but their own writes changes, over every run.
* `PageCacheRuns.dfy`: what such runs do to pins, marks, access counts and zeroed blocks, and when a map is
  refused.
* `CacheProtocol.dfy`: the same cache with clients and the flusher thread interleaved, the flags being read
  before the element's mutex is tried, and elements growing under their mutex in between. No marked write is
  lost, and the exact window in which one would be, with a run that reaches it.
* `SyncProtocol.dfy`: the handshake of `cache_sync` and `cache_disable` with the flusher, and what
  its answers mean. The record kept of a handshake is read by no step.
* `LockOrder.dfy`: the three levels of mutexes; no deadlock for any number of threads, and the one path
  that leaks a mutex.
* `Bytes.dfy`, `Bitmap.dfy`, `BitmapFind.dfy`: the byte-at-a-time bitmap operations against plain sequences
  of bits.
* `SlotAllocator.dfy`, `MkfsLayout.dfy`: two clients of the bitmap, the slot allocator and the layout and
  block map of a new file system.
* `HashB79.dfy`: the order-preserving word hash.
* `Xxh32Steps.dfy`, `Xxh64Steps.dfy`, `Integers.dfy`, `Modulo.dfy`: the published steps of XXH32 and XXH64 in
  integer arithmetic, as the specification of the xxHash fast digest algorithm gives them.
* `Inputs.dfy`, `Words32.dfy`, `Words64.dfy`, `XxHash32.dfy`, `XxHash64.dfy`: the code of the two digests on
  machine words. `Numbers32.dfy` and `Numbers64.dfy` say what the word operations do to the numbers that words
  stand for; with them the digests are proved to be those of the steps, for every input and seed. Then come
  non-collision theorems over inputs of any length, and `KnownDigests.dfy`, two known values of each width.
* `Ring.dfy`, `GcList.dfy`, `GcMarks.dfy`: the circular list, the allocation tracker on it, and what marks and
  sweeps come to over whole runs.
* `Storage.dfy`, `Wrappers.dfy`: what several of these share.

Where the code does not do what its comments say, the model does what the code does, with one exception that
is named here:

* `bm_find` carries a run of clear bits into the next byte without checking that the run goes on at its
  bit 0, so a reported gap need not be clear (fs/map.c:447-452, 463-470). What it reports is clear on every
  map if and only if it looks for one bit (`FindIsSoundExactly`), and it is clear on maps whose runs are
  long enough (`FindIsSoundOnLongRuns`). The lengths it hands to `byte_find_gap` are narrowed to `int`, so it
  can miss gaps as well: sizes are never missed if and only if they are at most 2^32 bits or leave the
  remainder 1 modulo 2^32 (`NeverMissesExactly`). A reported gap can also end behind its window, because
  the last byte is searched in full and a carried run is followed further; `StaysInWindowExactly` says for
  which windows and sizes it never does.
* `bm_set_extent` returns -2, with all but the last bit written, when an extent of several bits ends one bit
  past a byte boundary (fs/map.c:284-293). The file system maker ignores that result, so its block
  map can lack these bits; `MapIsCompleteExactlyFor` says for which file sizes and percentages it has them
  all. The header of the block map counts the blocks laid out in 32 bits, lost ones included;
  `HeaderIsRightExactly` says for which files that is the number of set bits. The superblock records sizes
  in 16 bits; `RecordedExactly` says for which files they are right.
* `bm_count` narrows the pending length to `int` as well (fs/map.c:304-390), which shortens some counts in
  windows of more than 2^31 - 1 bits; `CountIsExactExactly` says for which windows it never does.
  `bm_extent_can_grow` inherits this and can refuse an extent with free space behind it; it never does in
  exactly the same windows (`GrowIsExactExactly`).
* The slot allocator compares with `>` where a full table needs `>=` (fs/kfs_slot.c:24, 56). That is
  harmless exactly when the bits between the capacity and the next byte boundary are set, or there are none
  (`FullMapDeniesExactly`); a new file system's map has them clear (`ZeroedMapOverflows`). One id too many is
  all it grants (`OverflowIsTheLast`).
* `hash_b79` is called collision-free for words of letters, digits and selected signs. That holds up to ten
  characters (`HashOrdersWords`); longer words are compared by their first ten. Bytes above 0x7f are read as
  negative characters and count as -1; `CollideExactly` says exactly which words collide.
* A map whose extent overlaps a cached one is accepted, and then writes are lost; `MapIsSafeExactly` says
  exactly which maps keep the cache sound.
* `gc_sweep` computes a node's address from the list entry as if that were a data pointer
  (fs/gc.c:174-175). Here the model departs from the code: it takes the entry itself as the node.
* `cache_sync` can report success at once when an earlier call timed out
  (`EarlyAnswerExactly`, `EarlierTimeoutBreaksSync`).

## Model

| member | source | states |
|---|---|---|
| Bytes.ByteSetBits | fs/map.c:10-33 | exactly the bits from start to the stop bit take the flag's value, all others keep theirs |
| Bytes.ByteGetBit | fs/map.c:37-42 | 1 for a set bit and 0 for a clear one |
| Bytes.ByteCountBits | fs/map.c:49-77 | the count is the maximal run of the flag's value from start, cut off at the stop bit |
| Bytes.ByteFindGap | fs/map.c:89-119 | offset or -1 or -2, and the count, are those of the bit-by-bit scan, for any length including zero and negative ones |
| Bytes.GapScanMeaning | fs/map.c:80-119 | a found gap is clear, preceded by a set bit or the start, and the first one; -1 and -2 mean no gap inside the byte, with the length of its clear end |
| Bitmap.BmSetBit | fs/map.c:127-156 | 0 and just that bit changed, or -1 outside the map and nothing changed |
| Bitmap.BmGetBit | fs/map.c:159-186 | the bit as 1 or 0, or -1 outside the map |
| Bitmap.BmSetExtent | fs/map.c:191-294 | 0, -1 or -2 by an exact condition on address and length, and in each case exactly which bits took the value, all others unchanged |
| Bitmap.SetThenClearRestores | fs/map.c:191-294 | setting and clearing an extent restores the map if and only if the extent was clear |
| Bitmap.PopCountOfFill | fs/map.c:191-294 | setting a clear range raises the number of set bits by its length |
| Bitmap.BmCount | fs/map.c:304-390 | 0 with the run length from the address capped at the window (after narrowing), -1 outside the map; -2 only for an empty aligned window |
| Bitmap.CountIsExactUnlessNarrowed | fs/map.c:304-390 | the reported count is the length of the maximal run if and only if narrowing does not bite, which takes a window above INT_MAX bits |
| Bitmap.CountIsExactExactly | fs/map.c:304-390 | the reported count is the maximal run on every map if and only if the pending count at the window's first byte boundary fits a C int |
| Bitmap.NarrowingCounterexample | fs/map.c:366-372 | a window of 2^32 bits starting with a run of two is reported as a run of one |
| Bitmap.GrowClassFromRuns | fs/map.c:480-579 | the class of a window follows from its leading zeroes, its leading ones and the zeroes behind them |
| Bitmap.BmExtentCanGrow | fs/map.c:488-579 | -1 exactly for bad arguments; else 0 for ones or none and then zeroes to the end, -3 all ones, -2 starting clear but not all clear, -5 a one behind the zeroes, or -5 where narrowing shortens the count of the leading ones; no other code |
| Bitmap.GrowIsExactExactly | fs/map.c:488-579 | the code is that of the window's bits on every map if and only if the pending count at the window's first byte boundary fits a C int |
| Bitmap.GrowthIsRefused | fs/map.c:519-579 | in every other window, a map of ones then zeroes for which the answer is -5 |
| BitmapFind.BmFind | fs/map.c:400-477 | the loop terminates within the given room and its outcome is that of the carried scan |
| BitmapFind.BadArgumentsAreRefused | fs/map.c:413-427 | -1 without a search for an address outside the map, an empty window or gap, or a gap wider than the window, and only for those |
| BitmapFind.SearchedAfterCarry | fs/map.c:463-470 | a byte that ends in a clear run keeps what the search knows: no gap overlooked, and every clear run that reaches the position accounted for |
| BitmapFind.FindScanMeaning | fs/map.c:429-473 | from any state of the loop that knows what it searched, the outcome means what it should |
| BitmapFind.FindNeverMisses | fs/map.c:400-477 | a call whose clipped window holds a gap of at most 2^32 bits, or of a size that narrows to 1, reports one, at no higher an address |
| BitmapFind.NeverMissesExactly | fs/map.c:400-477 | a gap size is missed by no call on any map if and only if it is at most 2^32 or leaves the remainder 1 modulo 2^32 |
| BitmapFind.WideGapIsMissed | fs/map.c:429-473 | for every other size, a map whose window holds the gap and a search of it that ends with -1 |
| BitmapFind.FindIsSoundExactly | fs/map.c:429-473 | for a gap size, what any call on any map reports is clear if and only if the size is 1 |
| BitmapFind.FindIsSoundOnLongRuns | fs/map.c:429-473 | on a map whose clear runs in the window have the gap's size (up to 2^32 bits: those that end their byte), what is reported is clear |
| BitmapFind.FoundAddressStartsRun | fs/map.c:442-468 | for any size, a reported address is in the window's bytes, clear, and behind a set bit or the start |
| BitmapFind.BrokenGapIsReported | fs/map.c:447-470 | for every size above 1, a map on which address 7 is reported although bit 8 is set |
| BitmapFind.StaysInWindowExactly | fs/map.c:400-477 | for a clipped window and a size, every reported gap ends inside the window, whatever the map, if and only if the gap fits behind the last bit of the window's first byte and leaves a multiple of 8 bits there |
| BitmapFind.GapIsSpilled | fs/map.c:429-473 | for every other window and size, a map on which the reported gap ends behind the window |
| BitmapFind.FindOneBit | fs/map.c:400-477 | with gap size 1 the lowest clear bit of the window rounded up to bytes, and -1 only if there is none |
| SlotAllocator.SlotMap.KfsSlotReserve | fs/kfs_slot.c:23-87 | bitmap and both counters change as the allocator's specification says, and the id or refusal is its outcome |
| SlotAllocator.SlotMap.KfsSlotRemove | fs/kfs_slot.c:197-244 | bitmap and both counters change as the specification says; -1 beyond the capacity |
| SlotAllocator.ReserveGrantsLowest | fs/kfs_slot.c:61-87 | unless the map is full with its slack clear, a reserve grants the lowest free id and reserves just that one, or is denied if and only if every id is reserved |
| SlotAllocator.RemoveFreesId | fs/kfs_slot.c:230-244 | removing a reserved id frees just that id and keeps the counter right |
| SlotAllocator.FullMapDeniesExactly | fs/kfs_slot.c:54-78 | on a full map a reserve is denied if and only if the slack bits are set; otherwise it grants an id outside the table and the counter goes wrong |
| SlotAllocator.ZeroedMapOverflows | fs/kfs_slot.c:54-87 | for every capacity that is no multiple of 8, that many reserves fill a zeroed map and the next one grants the id just past it |
| SlotAllocator.ReserveDeniesExactly | fs/kfs_slot.c:23-78 | in any state a reserve is denied, without a change, if and only if a counter is above its capacity or every bit up to the byte boundary is set |
| SlotAllocator.OverflowIsTheLast | fs/kfs_slot.c:23-87 | after the id past the table has been granted no bit has changed and every reserve is denied |
| SlotAllocator.RemoveOfFreeIdMiscounts | fs/kfs_slot.c:197-244 | after a remove the counter is right if and only if the id was reserved |
| SlotAllocator.RunGuarantee | fs/kfs_slot.c:61-87 | over any run of reserves and removes of reserved ids, with the slack set or no reserve on a full map, the counter is the number of set bits and the next reserve is the lowest free id, or denied when full |
| SlotAllocator.MkfsCapacityHasSlack | fs/kfs_mkfs.c:701-763 | the slot capacity that percentage mode computes leaves no slack bits if and only if the slot table has an even number of blocks |
| MkfsLayout.Mkfs.ComputeValues | fs/kfs_mkfs.c:670-836 | the shares for tables and maps, and that they add up within the file |
| MkfsLayout.LayoutIsDisjoint | fs/kfs_mkfs.c:172-231 | superblock, tables and maps are non-empty, pairwise disjoint, inside the file and take exactly the blocks required, for at least 1280 blocks and 2 to 90 percent |
| MkfsLayout.Mkfs.BuildSuperblock | fs/kfs_mkfs.c:172-232 | the superblock records the five extents of the layout |
| MkfsLayout.RecordedExactly | fs/kfs_mkfs.c:196-230 | all recorded sizes are those laid out if and only if a share (blocks times percentage over 200) is at most 65537 blocks |
| MkfsLayout.LargeTableIsRecordedEmpty | fs/kfs_mkfs.c:196-215 | 145640 blocks at 90 percent: tables of 65536 blocks, recorded as 0 |
| MkfsLayout.Mkfs.BuildMap | fs/kfs_mkfs.c:248-272 | a clear map with the superblock's bit set and a count of one |
| MkfsLayout.Mkfs.BuildSinodes | fs/kfs_mkfs.c:381-401 | marks the super-inode table and map, and counts them |
| MkfsLayout.Mkfs.BuildSlots | fs/kfs_mkfs.c:496-516 | marks the slot table and map, and counts them |
| MkfsLayout.Mkfs.WriteMap | fs/kfs_mkfs.c:532-542 | marks the block map itself and counts it |
| MkfsLayout.Mkfs.BuildFilesystem | fs/kfs_mkfs.c:565-634 | the final map has exactly the blocks of the layout less those lost to the one-bit tail; the header counts all of the layout, modulo 2^32, and equals the number of set bits if and only if nothing is lost and nothing wraps |
| MkfsLayout.MarkedExactly | fs/kfs_mkfs.c:387-542 | after any number of disjoint extents, a block is set if and only if one of them holds it and did not lose it, and population count plus losses is the total size |
| MkfsLayout.MapIsCompleteExactly | fs/kfs_mkfs.c:387-542 | as many bits are set as blocks are laid out, and then exactly theirs, if and only if no extent of several blocks ends one past a byte boundary |
| MkfsLayout.MapIsCompleteExactlyFor | fs/kfs_mkfs.c:670-836 | the same as a condition on the number of blocks and the percentage |
| MkfsLayout.HeaderIsRightExactly | fs/kfs_mkfs.c:248-542 | the header's 32-bit count is the number of set bits if and only if the number of blocks and the percentage lose no block and require fewer than 2^32 |
| MkfsLayout.HugeFileWrapsHeader | fs/kfs_mkfs.c:393-542 | 5 * 10^9 blocks at 90 percent: 4500076595 blocks laid out, a header count of 205109299 |
| MkfsLayout.SmallFileLosesBlocks | fs/kfs_mkfs.c:387-516 | 1280 blocks at 4 percent: 52 blocks counted, 50 bits set |
| HashB79.Ascii2Mx79 | fs/hash.c:35-71 | the table scan yields the class of each character, and -1 outside 0..255 |
| HashB79.ClassesFollowCodes | fs/hash.c:35-71 | classes keep the order of the codes 0 to 255, and two codes share one if and only if they are in one of the nine lumped ranges |
| HashB79.EveryClassIsUsed | fs/hash.c:35-71 | each class from 0 to 78 is that of some code |
| HashB79.HashB79 | fs/hash.c:79-97 | the hash is the base-79 number of the ten class codes, reduced once modulo 2^64 |
| HashB79.TenDigitsFit | fs/hash.c:79-97 | for 7-bit words the number never wraps |
| HashB79.CollideExactly | fs/hash.c:73-97 | any two words collide if and only if the class codes of their first ten characters agree after zero padding and borrowing for the negative ones |
| HashB79.SevenBitWordsCollideExactly | fs/hash.c:73-97 | two 7-bit words collide if and only if those codes agree |
| HashB79.ValuesMeetOnlyWhenEqual | fs/hash.c:85-94 | the numbers of two words are congruent modulo 2^64 only when equal |
| HashB79.HighBitCollision | fs/hash.c:85-94 | beyond 7 bits words with different codes can collide |
| HashB79.HashOrdersWords | fs/hash.c:7-97 | on words of graded characters, numeric order is dictionary order of the first ten characters, hence no collision up to ten |
| XxHash32.Xxh32 | fs/hash.c:223-274 | the loops compute the digest that is defined stripe by stripe, word by word and byte by byte, and its number is the one that the steps of XXH32 give in integers |
| XxHash32.DigestFollowsSteps | fs/hash.c:216-274 | for every input and seed, the digest on words is that of the published steps in arithmetic modulo 2^32 |
| XxHash32.SeedDecidesLanes | fs/hash.c:216-250 | after any number of stripes each accumulator is the same for two seeds if and only if they are equal |
| XxHash32.SeedDecidesShort | fs/hash.c:254-274 | below 16 bytes the digest is injective in the seed |
| KnownDigests.Empty32 | fs/hash.c:223-274 | the empty input with seed 0 gives 0x02cc5d05 |
| KnownDigests.Count32 | fs/hash.c:223-274 | a known digest with seed 1 of 21 bytes: a stripe, a word and a byte |
| XxHash32.AvalancheIsBijective | fs/hash.c:267-271 | the final mix and its inverse undo each other |
| XxHash32.LaneDifferenceStays | fs/hash.c:216-250 | a difference in one accumulator survives any number of equal stripes |
| XxHash32.ConvergeKeepsDifference | fs/hash.c:252-253 | the convergence keeps a difference in one accumulator |
| XxHash32.ChangedWordChangesDigest | fs/hash.c:216-274 | inputs of any equal length that differ only inside one aligned word hash differently, for every seed |
| XxHash32.ChangedByteChangesDigest | fs/hash.c:216-274 | so do inputs that differ only in one byte behind the last whole word |
| XxHash32.OneByteChangesDigest | fs/hash.c:216-274 | changing any one byte of an input changes the digest |
| XxHash64.Xxh64 | fs/hash.c:134-213 | the loops compute the digest that is defined stripe by stripe and unit by unit, and its number is the one that the steps of XXH64 give in integers |
| XxHash64.DigestFollowsSteps | fs/hash.c:134-213 | for every input and seed, the digest on words is that of the published steps in arithmetic modulo 2^64 |
| XxHash64.SeedDecidesLanes | fs/hash.c:156-172 | after any number of stripes each accumulator is the same for two seeds if and only if they are equal |
| XxHash64.SeedDecidesShort | fs/hash.c:181-213 | below 32 bytes the digest is injective in the seed |
| KnownDigests.Empty64 | fs/hash.c:150-213 | the empty input with seed 0 gives 0xef46db3751d8e999 |
| KnownDigests.Count64 | fs/hash.c:134-213 | a known digest with seed 1 of 45 bytes: a stripe, a word of each width and a byte |
| XxHash64.AvalancheIsBijective | fs/hash.c:206-210 | the final mix and its inverse undo each other |
| XxHash64.ChangedTailUnitChangesDigest | fs/hash.c:184-213 | inputs of any equal length that differ only in one 8-byte word, 4-byte word or byte behind the last stripe hash differently, for every seed |
| XxHash64.InjectiveOnEightBytes | fs/hash.c:150-213 | on 8-byte inputs the digest is injective |
| XxHash64.ChangedWordChangesOneLane | fs/hash.c:156-172 | inputs that differ only inside one aligned 8-byte word of the stripes reach the convergence with exactly one accumulator different |
| XxHash64.ConvergenceDecides | fs/hash.c:174-213 | inputs that agree behind the stripes collide if and only if their accumulators converge to the same value |
| Ring.ListEmpty | fs/list.h:33-35 | true if and only if the ring has no nodes |
| Ring.ListAdd | fs/list.h:37-42 | the ring is the new node followed by the old ones |
| Ring.ListAddTail | fs/list.h:44-49 | the ring is the old nodes followed by the new one |
| Ring.ListDel | fs/list.h:51-54 | the ring is the old nodes without the deleted one, in order |
| Ring.ListReparent | fs/list.h:56-64 | the new head heads the same non-empty sequence; an empty ring is left alone |
| GcList.GcList.constructor | fs/gc.c:55-62 | an empty ring |
| GcList.GcList.GcMalloc | fs/gc.c:29-46 | a granted allocation becomes the newest node; a refused one changes nothing |
| GcList.GcList.GcFree | fs/gc.c:48-52 | exactly that node leaves the ring and the heap |
| GcList.GcList.GcMark | fs/gc.c:152-157 | that allocation is marked, with its size as it was, and all others are unchanged |
| GcList.GcList.GcListTotalMem | fs/gc.c:91-102 | the sum of the tracked sizes, modulo 2^64 |
| GcList.GcList.Follow | fs/list.h:26-27 | every next pointer read is that of the head or of a node that is still allocated |
| GcList.GcList.SizeOf | fs/gc.c:97-99 | every size read is that of a node that is still allocated |
| GcList.GcList.MarkOf | fs/gc.c:173-177 | every mark read is that of a node that is still allocated |
| GcList.GcList.GcSweep | fs/gc.c:166-180 | exactly the marked nodes are freed, the rest stays in order, and no freed node is read |
| GcList.GcList.GcListDestroy | fs/gc.c:64-74 | all nodes are freed and the ring is empty again |
| GcList.KeptInOrder | fs/gc.c:173-179 | what a sweep keeps is each unmarked node at the position given by the unmarked ones before it, and nothing else |
| GcMarks.MarksAreRemembered | fs/gc.c:29-180 | over any run from the empty list, a tracked allocation has the size asked for (in 32 bits), and is marked if and only if it was marked since it was made |
| GcMarks.SweepTakesTheMarked | fs/gc.c:152-180 | of the tracked allocations a sweep takes exactly those marked since they were made |
| GcMarks.UnmarkedRunSurvives | fs/gc.c:29-180 | after a run without marks a sweep takes nothing |
| GcMarks.MarkThenSweep | fs/gc.c:152-180 | marking one allocation of an unmarked list and sweeping takes that one alone |
| GcList.RunConserves | fs/gc.c:29-180 | over any run, bytes tracked plus bytes given back are bytes tracked at the start plus bytes handed out |
| PageCacheSpec.FlushKeeps | fs/page_cache.c:22-37 | writing an element back shows clients nothing new and keeps the invariant |
| PageCacheSpec.GrowKeeps | fs/page_cache.c:69-98 | flush before re-read: growing an element shows clients nothing new |
| PageCacheSpec.EvictKeeps | fs/cache.c:214-261 | an eviction shows clients nothing new and leaves all other slots alone |
| PageCacheSpec.MapDelivers | fs/page_cache.c:42-141 | hit, growth or miss, the element returned holds the requested blocks as clients saw them before the call |
| PageCacheSpec.HitStaysInPlace | fs/page_cache.c:62-98 | a hit returns the element's own slot with the blocks it had, also after growing, counts one access, touches no other slot, and writes only when a dirty element grows |
| PageCacheSpec.MissFillsFirstEmpty | fs/cache.c:481-542 | a miss with room takes the first empty slot and evicts nothing |
| PageCacheSpec.VictimIsFirstMinimum | fs/cache.c:491-515 | the victim is the first unpinned slot of minimum access count |
| PageCacheSpec.MissEvictsVictim | fs/cache.c:491-542 | a miss on a full cache evicts that slot, flushes it, leaves all others alone, and fails without any change if and only if no slot is eligible |
| PageCacheSpec.StepShowsEffect | fs/page_cache.c:42-202 | every operation keeps the invariant and changes what clients see by a write or zero map only |
| PageCacheSpec.RunIsTransparent | fs/page_cache.c:42-202 | over any run, clients see a store that only their own writes and zero maps changed |
| PageCacheSpec.RunsExtend | fs/page_cache.c:42-202 | the runs of the theorem are restricted by nothing but what each call asks for |
| PageCacheSpec.CleanDeviceIsView | fs/cache.h:47-49 | with nothing dirty, the device holds exactly what clients see |
| PageCacheSpec.PassWritesBack | fs/cache.c:42-107 | after a whole flusher pass the device holds what clients saw, exactly the EVICT-marked elements are gone, and each other is clean, with its blocks and pin, and counted once more if it was dirty |
| PageCacheRuns.MissReturnsNew | fs/cache.c:519-542 | the element of a miss has the asked extent and is CLEAN, not DIRTY, EVICT or PIN, and counted once |
| PageCacheRuns.FlagsAreAsked | fs/cache.c:446-615 | over any run from the empty cache an element is pinned if and only if it was since it was mapped, and not unpinned since, and marked if and only if it was since it was mapped |
| PageCacheRuns.UnpinnedRunsMap | fs/cache.c:477-542 | after a run without pins, with a slot and counts below INT_MAX, no map is refused, nor a zero map of an address that is not cached |
| PageCacheRuns.PassKeepsMapped | fs/cache.c:42-107 | a flusher pass right after a miss leaves its element as it is |
| PageCacheRuns.EvictedKeyIsGone | fs/cache.c:265-281 | after an eviction by key no element has that address, and all other slots are unchanged |
| PageCacheRuns.LookupCounts | fs/cache.c:446-464 | a lookup counts one access of that element and changes nothing else |
| PageCacheRuns.ZeroMapReturnsNew | fs/page_cache.c:176-202 | the element of a zero map has the asked number of blocks, each 8192 zero bytes, and is DIRTY, neither EVICT nor PIN, and counted once |
| PageCacheRuns.ZeroMapShowsZeroes | fs/page_cache.c:176-202 | after it each of those blocks shows 8192 zero bytes and every other block what it showed |
| PageCacheRuns.ZeroMapOfCached | fs/page_cache.c:160-174 | a zero map of a cached address is refused and counts one access of that element |
| PageCacheRuns.UnmarkedZeroMapIsSafeExactly | fs/page_cache.c:176-195 | a zero map that is not marked dirty is safe if and only if the device has zero bytes there |
| PageCacheSpec.MapIsSafeExactly | fs/page_cache.c:42-202 | a map, or a zero map with its dirty mark, keeps the invariant if and only if its extent is apart from what stays cached, or no element is read or grown |
| PageCacheSpec.UnfitMapCoversTwice | fs/page_cache.c:62-134 | with no empty extent in the cache, any other map of a non-empty extent leaves a block under two elements |
| PageCacheSpec.UnfitZeroMapCoversTwice | fs/page_cache.c:145-195 | and so does any other zero map |
| PageCacheSpec.OverlapLosesWrite | fs/page_cache.c:22-37 | for any block under two elements, writing through one, then the other, and flushing both undoes the second write |
| PageCacheSpec.OverlapIsReached | fs/page_cache.c:42-141 | two maps and two writes from the empty cache get there |
| PageCacheSpec.UnmarkedZeroMap | fs/page_cache.c:176-195 | a zero map that is not marked dirty is safe if and only if the blocks are zero on the device |
| PageCache.Cache.constructor | fs/cache.c:131-162 | all slots empty |
| PageCache.Cache.PgcacheOnFlush | fs/page_cache.c:22-37 | the element's blocks are written to its extent and nowhere else |
| PageCache.Cache.CacheElementEvictByIdx | fs/cache.c:214-261 | flush if dirty, then the slot is empty and counted out |
| PageCache.Cache.FindVictim | fs/cache.c:491-515 | the scan finds the specified victim, or reports that there is none |
| PageCache.Cache.FindRoom | fs/cache.c:477-517 | an empty slot, or the slot of the evicted victim |
| PageCache.Cache.PgcacheElementMap | fs/page_cache.c:42-141 | hit, growth and miss leave exactly the specified state and return its element, for any extent on the device; a new one is CLEAN, unmarked, unpinned and counted once; the result is valid if and only if the extent fits |
| PageCache.Cache.PgcacheElementMapZero | fs/page_cache.c:145-202 | the specified state, with a cached address refused and the new element's blocks 8192 zero bytes each; valid if and only if the extent fits |
| PageCache.Cache.CacheElementMarkDirty | fs/cache.c:570-584 | DIRTY goes up, CLEAN goes down, and nothing else changes |
| PageCache.Cache.WriteAndMark | fs/cache.c:570-584 | one block of the element's memory changes and the element is DIRTY and not CLEAN |
| PageCache.Cache.Relabel | fs/cache.c:554-615 | only EVICT and PIN change |
| PageCache.Cache.CacheLookup | fs/cache.c:446-464 | the element with that key, counted as used, or none |
| PageCache.Cache.CacheElementEvict | fs/cache.c:265-281 | the element with that key is evicted, or nothing happens |
| PageCache.Cache.FlusherVisit | fs/cache.c:48-106 | the specified visit: flush if dirty, drop if marked |
| PageCache.Cache.FlusherPass | fs/cache.c:42-107 | the specified pass over all slots |
| CacheProtocol.InvKept | fs/cache.c:42-584 | every interleaved step of clients and flusher keeps the invariant |
| CacheProtocol.RegrowShows | fs/page_cache.c:71-97 | growing an element under its mutex, at any stage of a flusher visit that leaves it unlocked, shows clients nothing new |
| CacheProtocol.SavedStays | fs/page_cache.c:71-75 | a flush made by a growth leaves what another element has on the device |
| CacheProtocol.BookkeepingInEveryRun | fs/cache.c:95-542 | in every reachable state the counter is the number of live elements and within the capacity, each is ACTIVE and has exactly one of DIRTY and CLEAN, and no two cached extents overlap |
| CacheProtocol.StepShows | fs/cache.c:42-584 | only a client's write changes what clients see, and only its own block |
| CacheProtocol.RunsAreTransparent | fs/cache.c:42-584 | over every interleaving, a block shows the value last written to it |
| CacheProtocol.MappedIsNew | fs/cache.c:481-542 | a map puts a new element of the asked extent, CLEAN, unmarked and unpinned, into its slot and leaves the others alone |
| CacheProtocol.GrownIsLonger | fs/page_cache.c:71-97 | a growth gives the element the asked length, keeps the blocks and flags it had, and changes no other slot |
| CacheProtocol.EvictedIsGone | fs/cache.c:214-281 | an eviction by a client empties its slot alone |
| CacheProtocol.FlagsAreAsked | fs/cache.c:554-615 | over any run, with no pin asked for no element becomes pinned, and with no mark asked for none becomes marked |
| CacheProtocol.PinSpares | fs/cache.c:42-615 | a pinned element that is not marked stays, over any interleaving of maps, growths and flusher steps, until somebody unpins, marks or evicts it |
| CacheProtocol.CleanRunsAreDurable | fs/cache.c:54-105 | once nothing dirty caches a block, the device has the last value written |
| CacheProtocol.HeldElementIsStill | fs/cache.c:60-105 | while the flusher holds an element nobody else changes it |
| CacheProtocol.ClearsOnlyAfterFlush | fs/cache.c:65-82 | DIRTY is cleared only in the hold of the mutex in which the flush ran, with the device up to date |
| CacheProtocol.FreedIsSaved | fs/cache.c:84-261 | an element that leaves the array leaves its contents on the device |
| CacheProtocol.EvictDisciplineSuffices | fs/cache.c:54-102 | clients who never dirty an EVICT-marked element meet the condition of the theorems |
| CacheProtocol.WriteIsSafeExactly | fs/cache.c:54-102 | a write keeps the invariant if and only if the flusher has not read its element as EVICT without DIRTY and yet to lock it |
| CacheProtocol.WindowLosesWrite | fs/cache.c:54-102 | a write in that window is freed unflushed, and its block shows what it showed before |
| CacheProtocol.WindowIsReached | fs/cache.c:42-60 | a map and an eviction mark from the empty cache, and the flusher's first look, open the window |
| SyncProtocol.SysInvKept | fs/cache.c:42-388 | every step of clients, flusher and caller keeps the invariant of the handshake |
| SyncProtocol.SyncDelivers | fs/cache.c:357-388 | when LOOP_DONE is seen, and was down when the request was made, a whole pass has begun since: of the elements it could lock and nobody disturbed exactly the unmarked, pinned ones remain, and whatever was dirty has been flushed |
| SyncProtocol.EverySyncDelivers | fs/cache.c:357-388 | the same for every run without an earlier timeout |
| SyncProtocol.PinnedOutlivesSyncs | fs/cache.c:357-388 | a pinned element outlives any number of cache_syncs |
| SyncProtocol.PassAnswers | fs/cache.c:95-107 | the end of the next pass answers whoever waits, unless an early answer was left |
| SyncProtocol.GoneHasAnswered | fs/cache.c:96-116 | in any run, a cache_disable that waits for a flusher that has gone has its answer |
| SyncProtocol.EarlyAnswerExactly | fs/cache.c:376-384 | the caller can be answered before any pass if and only if LOOP_DONE was left up, which takes an earlier timeout |
| SyncProtocol.EarlierTimeoutBreaksSync | fs/cache.c:376-388 | a reachable state in which a second sync is answered with its dirty element still in the cache and not on the device |
| SyncProtocol.DisableEmpties | fs/cache.c:309-331 | EVICTED means an empty array if no map intervened and no trylock failed |
| SyncProtocol.EveryDisableEmpties | fs/cache.c:309-331 | the same for every run |
| SyncProtocol.CleanedMeansFlushed | fs/cache.c:65-82 | an element counts as flushed only when the device has its contents |
| LockOrder.DisciplinedExactly | fs/page_cache.c:55-137 | a call takes locks in the order pc, ca, ce, never one it holds, and gives all back, if and only if it is not a map whose growth fails; the other calls are those of fs/cache.c:42-118, 214-281, 309-402 and 446-615 |
| LockOrder.CallTakesExactly | fs/page_cache.c:55-137 | which mutexes each call takes |
| LockOrder.GuardIsHeldThroughout | fs/page_cache.c:55-137 | a call takes its mutex (pc_mutex for maps, ca_mutex or an element's for the others) first, gives it back last and does not touch it in between; cache_sync and a failed growth excepted |
| LockOrder.CallsAreSerial | fs/page_cache.c:55-137 | in every orderly state two threads are never both inside calls with the same such mutex |
| LockOrder.OrderlyKept | fs/cache.c:42-60 | every move of any thread keeps mutual exclusion and the order |
| LockOrder.NoWaitCycle | fs/page_cache.c:55-137 | no chain of waiting threads closes |
| LockOrder.HolderGoesOn | fs/cache.c:214-222 | while a lock is held, some holder can go on |
| LockOrder.NoRunDeadlocks | fs/page_cache.c:55-137 | in every state any number of threads reach, some thread can go on while a call is unfinished |
| LockOrder.CallsFinish | fs/page_cache.c:55-137 | the calls under way can all be finished, and then nothing is held |
| LockOrder.NoScheduleIsLonger | fs/page_cache.c:55-137 | no schedule runs them longer than their remaining operations |
| LockOrder.FailedGrowthLeaks | fs/page_cache.c:71-95 | a map whose growth fails ends with the element's mutex held |
| LockOrder.LeakBlocksMarks | fs/page_cache.c:80-95 | whoever marks that element next waits for a thread that is in no call |

## Left out

- FindScanMeaning: for gaps of at most 2^32 bits; `NeverMissesExactly` and `FindIsSoundExactly` are about all sizes.
- FindIsSoundOnLongRuns: one way only; on a given map a reported gap can be clear without it.
- NeverMissesExactly: for sizes that leave room for a window in 64-bit addresses.
- FindIsSoundExactly: for sizes that leave room for a window in 64-bit addresses.
- StaysInWindowExactly: for an address plus count below 2^64, as BmFind.
- GapIsSpilled: the same as StaysInWindowExactly.
- BmFind: asks for gap_size - 1 bytes behind the window, which the loop may read, and for an address plus count below 2^64.
- BmSetExtent: asks for an address plus length below 2^64; the code's bound check could wrap there.
- BmCount: asks for an address plus length below 2^64 and a length below 2^63, so that the pending length is not negative as int64_t.
- BmExtentCanGrow: asks for the same as BmCount.
- KfsSlotReserve: reads and writes of the slot map succeed, the magic numbers match and the file system is active; the slot table blocks (fs/kfs_slot.c:99-177) are not part of this model.
- KfsSlotRemove: the same as KfsSlotReserve.
- ComputeValues: the percentage mode of the kfs command only; the floating-point share is taken as the exact quotient rounded down.
- BuildSuperblock: the five extents only; times, magic numbers and capacities are plain copies.
- BuildSinodes: the block-map updates only; the table's contents and the item bitmap are not part of this model.
- BuildSlots: the same as BuildSinodes.
- GcSweep: the node is taken to be the list entry itself; the code computes its address from the entry as if that were a data pointer (fs/gc.c:174-175).
- PgcacheElementMap: allocation, device reads and writes succeed, and the extent is on the device.
- PgcacheElementMapZero: includes the dirty mark that the caller owes; `UnmarkedZeroMap` says what happens without it.
- WriteAndMark: a client's write and its mark are one step.
- RunIsTransparent: whole calls and whole flusher visits are atomic, because `pgcache_element_map` scans the slots under pc_mutex only; extents fit, as `MapIsSafeExactly` asks.
- InvKept: a map, from scan to relabelling, is one step, and so is a growth; a map's victim is any unpinned slot; mapped and grown extents are apart from the others, as `MapIsSafeExactly` asks.
- RunsAreTransparent: the same steps as InvKept; clients keep out of the window that `WriteIsSafeExactly` gives.
- SyncDelivers: one caller at a time; waiting is a step that may give up at any moment.
- Xxh32: words are read byte by byte in little-endian order, which is what the code does on a little-endian machine.
- Xxh64: the same as Xxh32.
- File and device I/O, sockets, configuration, help texts and traces.
- `pgcache_element_map_sync`, `cache_element_wait_for_flags` and `pgcache_element_sync`: the first always maps block 0; the poll of the others ends after its first round.
- CACHE_PAUSE: a paused flusher is one that does not start a pass.
- `gc_realloc` and `gc_strncat`: they move a node without relinking it and do not keep the ring.
- The -S and -I options of the file system maker, `krand64`, `dict`, `kfs_super` and the draft slot cache.
