# JudgeDuck-OS: a verified model of the cache, the solver, the allocators, the network paths and the page tables

This project models the parts of the JudgeDuck kernel whose correctness is not visible from a single function, and proves what they are for. It is written for Dafny 4.11; `dafny verify dfyconfig.toml` covers all files.

* **DuckCache** (`PagePool`, `DigestIndex`, `CacheSpec`, `CacheState`, `DuckCache`, `CacheRuns`). The content-addressed cache: three parallel arrays sorted by a 256-bit digest, a page pool threaded by next pointers, eviction in order of last use, in-place compaction, shift-insert. The object is proved to refine a bounded map from digests to bytes, for whole runs of stores and loads.
* **The streaming solver** (`SolverArithmetic`, `SolverSpec`, `SolverText`, `Solver`, `M2OverReport`). Prefix sums weighted by powers of ten, built by modular addition only, and a chained hash over a sliding window of 256 digits. The reports of any run of batches are proved equal to a naive search of the whole stream for M3 and M4; for M1 and M2, where the code reports more, exactly what it reports, and that the true matches among these are the naive search. In characters, the reports are exactly the parts of the received text that denote multiples.
* **The lwIP heap** (`HeapHeaders`, `HeapBlocks`, `HeapSpec`, `LwipHeap`, `HeapLaws`). Block headers in a byte array, first fit, splitting, coalescing, trimming, the lowest-free hint, in the configuration of this repository (`MEM_ALIGNMENT` 1, 32-bit sizes, assertions that abort).
* **The e1000 transmit ring** (`E1000Frags`, `E1000Transmit`). The driver and the device as interleaved steps: what goes on the wire is what was accepted, in order and unaltered.
* **The Internet checksum** (`ChecksumSpec`, `Checksum`). Sections 1 and 2 of RFC 1071: three fast forms, buffer chains of any lengths and alignments, and ducknet's own.
* **The virtio transmit queue** (`VirtioQueue`, `VirtioTransmit`). Every descriptor is in exactly one place, through 16-bit wraparound and the seeded start.
* **ARP and deferred IPv4 packets** (`ArpSpec`, `ArpTable`, `Arp`, `Bits`, `Clock`, `DeferredSpec`, `DeferredQueue`).
* **Page tables and lazy zeroing** (`PageFlags`, `PageWalk`, `PageTree`, `PageReserve`, `PageTables`, `UserMemory`, `LoaderSpec`, `Loader`, `Judging`). The recursively mapped entries, the construction of the tables and when their reservation suffices, and the loader that clears only pages marked as written and sets who may access which page; what programs judged one after the other find in memory.

`Machine` holds bytes, optional values, word sizes and the page size; `Remainders` the facts about division that several parts share.

## Results worth knowing

* *M1.* M1 is even, so its channel cannot test divisibility by M1. It reports the multiples of M1/2, except at the last digit of a full batch of 400, where it reports the multiples of M1 (`M1KeysEqualIff`, `M1Run`); `M1OverReports` gives fourteen digits that are reported and not divisible.
* *M2.* Keys are the low 64 bits of 87-bit sums. With r the value times its power of ten modulo M2, a substring is reported iff r is a multiple of 2^64, or, where the sum comes round, r - M2 is (`M2ReportedIff`). `M2OverReports` gives a first batch of 27 digits that is reported and not divisible; the reports that M2 divides are the naive search of the whole stream, each once and in order (`BatchTrue`, `Process`).
* *The heap.* `mem_trim` of the block at the end of the heap with room for a further block fails an assertion, and nothing else does (`Trim`, `TrimOfWholeHeapAborts`). The live areas decide the whole layout of the heap, whatever the order of allocating and freeing (`LayoutUnique`). In `plug_holes` as called from `mem_free` the two tests that would move `lfree` never do.
* *e1000.* Buffers are safe by a margin of one allocation: any two fragments at most 254 allocations apart are disjoint, and 255 apart they may overlap (`RecentApart`, `MarginIsExact`).
* *ARP.* The search never compares the last slot, so the very first entry stays last for ever. It is found until a larger address is added, is then lost, and is found again once it has been updated again; every other address always has its latest value (`KnownIsLatestIff`, `FirstAddressLost`).
* *virtio.* The seeding leaves every descriptor pending once iff the ring has as many places as there are descriptors, or the entry just behind the seeded ones was zero before, as in static memory (`SeedingOkIff`).
* *Lazy zeroing.* Within the region from the load address to the end of the output buffer memory is as after a full clear. The page for the image of the ELF header lies behind the region and is not cleared: its bytes behind the image keep what they held, and the program can read them. All that a program can read at its start depends on that program alone iff its file has at least a page (`StartAloneIff`); otherwise it finds there what an earlier program stored (`EarlierStoreShows`, `Judge`).
* *The break.* If the region ends at `vaddr_break`, the image page is not user memory but belongs to whoever allocated it, and it is overwritten and opened to the user; nothing at or above the break changes iff the region ends below it (`Load`, `BreakIsReached`).
* *Page tables.* `init_page_table_break` does not count the level-1 tables of the kernel. They must fit into what rounding up to huge pages leaves (`SufficesIff`): with a kernel of eight huge pages the reservation falls short for 502 to 505, 1014 to 1016, 1526, 1527 and 2038 huge pages, and for no other number but 0 (`ReservationFallsShort`).
* *Checksum.* Versions 1 and 2 are the checksum exactly when their 32-bit accumulator does not overflow, which it cannot up to 0x20002 bytes and can for every greater length (`Chksum1`, `Chksum2`, `OverflowIff`); version 3 always is.

## Model

| member | source | states |
|---|---|---|
| `DigestIndex.CmpDigest` | kern/duck_cache.cpp:98-105 | the word-by-word comparison is the comparison of the 256-bit numbers, and 0 only for equal digests |
| `DuckCaching.PoolInAllocation` | kern/duck_cache.cpp:51-85 | the linked pages end where the cache ends if its size is page aligned, and never behind what was allocated for it |
| `DuckCaching.TableBytesAre` | kern/duck_cache.cpp:58-69 | the tables take 72 bytes for each object, each table rounded up to pages |
| `DuckCaching.LinkPages` | kern/duck_cache.cpp:76-88 | links all pages of the pool in address order and counts them |
| `DuckCaching.FreshPool` | kern/duck_cache.cpp:76-88 | the linked pool is one null-terminated acyclic free list of all pages, and with no objects a partition |
| `DuckCaching.DuckCache.constructor` | kern/duck_cache.cpp:44-96 | the new cache is valid, empty, and has all its pages free, as many as reach the end of the cache from the tables on |
| `DuckCaching.LowerBound` | kern/duck_cache.cpp:114 | lower bound over an ascending range |
| `DuckCaching.UpperBound` | kern/duck_cache.cpp:115 | upper bound over an ascending range |
| `DuckCaching.DuckCache.Window` | kern/duck_cache.cpp:113-115 | everything before the window is below the digest, everything behind it above, as full digests |
| `DuckCaching.DuckCache.Find` | kern/duck_cache.cpp:107-128 | true exactly when the digest is stored, and always its lexicographic lower bound |
| `DuckCaching.StopsAt` | kern/duck_cache.cpp:118-127 | in a strictly sorted index the first digest not below the sought one decides both |
| `DuckCaching.DuckCache.ReadChain` | kern/duck_cache.cpp:144-150 | reads the first len bytes along a chain that only len bounds |
| `DuckCaching.DuckCache.Load` | kern/duck_cache.cpp:130-153 | returns the bytes of the entry iff the digest is present with that length and then renews its time of use; otherwise changes nothing |
| `DuckCaching.DuckCache.OrderIds` | kern/duck_cache.cpp:180-187 | the ids are a permutation of the objects by time of last use |
| `DuckCaching.DuckCache.EvictOne` | kern/duck_cache.cpp:192-208 | splices the chain of one object in front of the free list and marks the object |
| `PagePool.EvictFreeList` | kern/duck_cache.cpp:202-208 | after the splice the free list is the chain followed by the old list: null-terminated, acyclic, longer by the chain |
| `PagePool.EvictPartition` | kern/duck_cache.cpp:193-208 | free list and the remaining chains still partition the pool |
| `PagePool.EvictKeepsOthers` | kern/duck_cache.cpp:202-208 | relinking the last page of one chain changes neither chain nor bytes of any other object |
| `PagePool.AllFree` | kern/duck_cache.cpp:168-171 | with nothing stored every page is free, so a need of at most the total can always be met |
| `PagePool.PagesForLeast` | kern/duck_cache.cpp:168 | an object takes the least number of pages, one at least, that hold its bytes at 4088 each |
| `DuckCaching.DuckCache.EvictNext` | kern/duck_cache.cpp:191-217 | one more eviction, and whether it still is not enough |
| `CacheState.RoomTest` | kern/duck_cache.cpp:210-217 | the test of the loop on the counters is whether the entries evicted so far make room |
| `DuckCaching.DuckCache.EvictUntilRoom` | kern/duck_cache.cpp:189-218 | stops at the first count of evictions that makes room |
| `CacheState.VictimsOrdered` | kern/duck_cache.cpp:186-192 | what is evicted is a prefix of an order by last use: none of it was used later than anything kept |
| `CacheState.EvictionMinimal` | kern/duck_cache.cpp:189-218 | it is the shortest prefix that makes room |
| `CacheState.EvictionResult` | kern/duck_cache.cpp:168-218 | the loop always ends with room, also when it evicts everything |
| `CacheState.EvictedOk` | kern/duck_cache.cpp:193-208 | an eviction keeps the invariant and removes exactly that entry, no other bytes changing |
| `DuckCaching.DuckCache.Defrag` | kern/duck_cache.cpp:220-232 | compacts the three arrays in step, keeping order |
| `DigestIndex.CompactSorted` | kern/duck_cache.cpp:220-232 | compaction keeps the digests strictly sorted |
| `DigestIndex.CompactLive` | kern/duck_cache.cpp:220-232 | and keeps exactly the objects that are not marked |
| `CacheState.CompactedOk` | kern/duck_cache.cpp:220-235 | after compaction nothing is marked, the contents are the same and the count is theirs |
| `CacheState.RoomLeft` | kern/duck_cache.cpp:234-237 | after eviction and compaction there are enough pages and an object slot |
| `DuckCaching.DuckCache.MakeRoom` | kern/duck_cache.cpp:180-235 | the whole removal: the entries lost are a shortest least-recently-used prefix, and there is room |
| `DuckCaching.DuckCache.Prepare` | kern/duck_cache.cpp:173-238 | room is made only if needed, and the index found again is the lower bound in the compacted arrays |
| `DuckCaching.ShiftInsert` | kern/duck_cache.cpp:240-247 | moves the tail up and stores at the gap |
| `DigestIndex.InsertSorted` | kern/duck_cache.cpp:240-248 | inserting an absent digest at its lower bound keeps strict order |
| `DuckCaching.DuckCache.WriteChain` | kern/duck_cache.cpp:255-265 | writes the bytes page by page along the free list and ends at the page behind them, also for no bytes |
| `PagePool.GatherScatter` | kern/duck_cache.cpp:144-150 | reading back along the chain what was written along it gives the same bytes |
| `PagePool.CarvePartition` | kern/duck_cache.cpp:250-268 | taking the first pages of the free list for a new object keeps the partition |
| `CacheState.AddedOk` | kern/duck_cache.cpp:240-268 | inserting keeps the invariant and adds exactly one entry with these bytes |
| `CacheState.TouchedOk` | kern/duck_cache.cpp:141-142 | a load only changes the time of last use |
| `DuckCaching.DuckCache.Insert` | kern/duck_cache.cpp:240-268 | the new state of all arrays and of the free list |
| `DuckCaching.DuckCache.Store` | kern/duck_cache.cpp:161-271 | succeeds iff the digest is present or its bytes are at most 4088 for each page of the pool; a present digest changes nothing, otherwise exactly the evicted entries go, none used after one that stays, and the new one comes |
| `DuckCaching.StoreMeans` | kern/duck_cache.cpp:161-271 | what a store keeps, adds and drops, entry by entry |
| `CacheRuns.Serve` | kern/duck_cache.cpp:130-271 | any sequence of stores and loads is a run of the specification |
| `CacheRuns.StepKeepsBytes` | kern/duck_cache.cpp:130-271 | no operation changes the bytes of an entry that stays |
| `CacheRuns.LoadReturnsStored` | kern/duck_cache.cpp:130-153 | over a whole run every successful load returns the bytes of the store that created the entry, whatever was stored, evicted and reused since |
| `CacheRuns.RunConserves` | kern/duck_cache.cpp:76-88 | at every point of a run free pages and the pages of all entries add up to the pool |
| `SolverArithmetic.AddMod` | kern/solver_faster.cpp:163-167 | exact addition modulo M in the machine type, without overflow |
| `SolverArithmetic.RawSumDifference` | kern/solver_faster.cpp:179-188 | two prefix sums differ by the value of the digits between them times a power of ten |
| `SolverArithmetic.SumsEqualIff` | kern/solver_faster.cpp:179-188 | two sums are equal iff M divides value * 10^(655 - q) |
| `SolverArithmetic.CoprimeTest` | kern/solver_faster.cpp:114-118 | for M2, M3 and M4 the power of ten does not matter |
| `SolverArithmetic.M1Test` | kern/solver_faster.cpp:111 | for M1 it does: the test is for M1/2 unless the power is 1 |
| `Solver.Hash.Clear` | kern/solver_faster.cpp:131-134 | empties the chains |
| `Solver.Hash.Insert` | kern/solver_faster.cpp:136-144 | appends one pair, and every bucket's chain is its pairs, newest first |
| `Solver.Hash.QueryAll` | kern/solver_faster.cpp:146-158 | reports exactly the pairs with that key inside the window, newest first, through the filters |
| `Solver.Channel.InitE` | kern/solver_faster.cpp:201-215 | the table built by additions holds digit * 10^(655 - i) modulo M |
| `Solver.Channel.Prepare` | kern/solver_faster.cpp:217-229 | sum and hash are those of the window |
| `Solver.Channel.AddDigits` | kern/solver_faster.cpp:179-188 | the reports of one batch are those of the scan over all earlier prefixes |
| `SolverSpec.KeysEqualIff` | kern/solver_faster.cpp:182-185 | for M3 and M4 equal keys mean exactly divisibility |
| `SolverSpec.M2NeverMisses` | kern/solver_faster.cpp:182-185 | a multiple of M2 always has equal truncated keys |
| `SolverSpec.M2ReportedIff` | kern/solver_faster.cpp:146-158 | with r the value times its power of ten modulo M2: reported iff r is a multiple of 2^64, or r - M2 is where the sum comes round; divisible iff r is 0 |
| `M2OverReport.M2OverReports` | kern/solver_faster.cpp:182-185 | 27 digits that are reported for M2 when received first after init, and that M2 does not divide |
| `M2OverReport.NinesSum` | kern/solver_faster.cpp:238-255 | the sum after the 256 nines the stream starts with |
| `SolverSpec.M1KeysEqualIff` | kern/solver_faster.cpp:182-185 | for M1 equal keys mean divisibility by M1/2, at the last place of the buffer by M1 |
| `SolverSpec.M1Reports` | kern/solver_faster.cpp:146-158 | a report for M1 short of the last place is divisible by M1 iff it is even |
| `SolverSpec.M1OverReports` | kern/solver_faster.cpp:111 | fourteen digits that are reported for M1 and that M1 does not divide |
| `SolverSpec.NaiveExact` | kern/solver_faster.cpp:82-95 | the reference search finds exactly the divisible substrings of at most 256 digits that pass the filters |
| `SolverSpec.ScanIsNaive` | kern/solver_faster.cpp:146-158 | searching the buffer for one digit is searching the whole stream |
| `SolverSpec.BatchIsNaive` | kern/solver_faster.cpp:179-188 | and so for every digit of a batch, in order and each once |
| `SolverSpec.BatchIsM1` | kern/solver_faster.cpp:179-188 | the M1 reports of a batch, exactly |
| `SolverSpec.ScanTrue` | kern/solver_faster.cpp:146-158 | the divisible ones among the M2 reports for one digit are the search of the whole stream, each once |
| `SolverSpec.BatchTrue` | kern/solver_faster.cpp:179-188 | and so for every digit of a batch, in order |
| `SolverSpec.M1True` | kern/solver_faster.cpp:179-188 | the multiples of M1 among the M1 reports of a batch are the naive search |
| `SolverText.TextIs` | kern/solver_faster.cpp:89-92 | a report is written with the characters 0 to 9 |
| `SolverText.PassesIff` | kern/solver_faster.cpp:82-88 | the filters in characters: no leading zero, and at least 14, 27, 54 or 68 of them |
| `SolverText.NaiveWrites` | kern/solver_faster.cpp:82-95 | the naive search, written out, is exactly the parts of the text that end behind a place, denote multiples, have at most 256 characters and pass the filters |
| `SolverText.BatchSlices` | kern/solver_faster.cpp:146-158 | every report of a batch is such a part, but for being a multiple |
| `Solver.StreamSolver.Init` | kern/solver_faster.cpp:238-255 | the window starts as 256 nines and everything is prepared |
| `Solver.StreamSolver.Prepare` | kern/solver_faster.cpp:231-236 | prepares the four channels for the window |
| `Solver.StreamSolver.AddDigits` | kern/solver_faster.cpp:190-199 | the stream grows by the batch, the window slides, and the reports are those of the four scans |
| `Solver.DigitsText` | kern/solver_faster.cpp:263-265 | written out again, the digits read from a batch are its characters |
| `Solver.StreamSolver.RecvInput` | kern/solver_faster.cpp:257-268 | the same for a batch of 1 to 400 characters, each taken as the digit it writes |
| `Solver.StreamSolver.Round` | kern/contestant.cpp:112-114 | a batch and the prepare that follows it |
| `Solver.StreamSolver.Process` | kern/contestant.cpp:112-114 | for every division into batches, each followed by prepare: for each modulus the reports it divides, written out, are exactly the parts of the received text that denote its multiples; M3 and M4 report nothing else, in the order of the naive search; the M1 and M2 reports are exactly M1Run and M2Run |
| `Solver.ExactReads` | kern/solver_faster.cpp:82-95 | from the reports as digits to the reports as characters |
| `Solver.ExactStep` | kern/solver_faster.cpp:190-199 | one more batch extends the exact reports of the stream |
| `HeapHeaders.HdrSame` | thirdparty/lwip-2.1.3/src/core/mem.c:473-510 | a header written to the byte array reads back |
| `HeapHeaders.HdrOther` | thirdparty/lwip-2.1.3/src/core/mem.c:473-510 | and leaves every header that does not overlap |
| `HeapBlocks.UserAreasDisjoint` | thirdparty/lwip-2.1.3/src/core/mem.c:830-976 | the user areas of different blocks are disjoint and in the heap |
| `HeapBlocks.CutRepresents` | thirdparty/lwip-2.1.3/src/core/mem.c:902-915 | splitting in the bytes is splitting the list of blocks, links both ways |
| `HeapBlocks.JoinedRepresents` | thirdparty/lwip-2.1.3/src/core/mem.c:486-509 | joining in the bytes is joining two blocks, links both ways |
| `HeapBlocks.MovedRepresents` | thirdparty/lwip-2.1.3/src/core/mem.c:753-780 | moving the start of a free block down in the bytes |
| `LwipHeap.BlockLinkValid` | thirdparty/lwip-2.1.3/src/core/mem.c:550-564 | the link check accepts every block of a consistent heap |
| `LwipHeap.RoundedIs` | thirdparty/lwip-2.1.3/src/core/mem.c:846-850 | a request counts as itself, but as 12 bytes at least |
| `LwipHeap.AllocatedBlock` | thirdparty/lwip-2.1.3/src/core/mem.c:886-927 | the block taken has at least the bytes asked for and less than 24 more |
| `LwipHeap.TrimmedBlock` | thirdparty/lwip-2.1.3/src/core/mem.c:745-804 | the block left has at least the bytes asked for and less than 24 more, exactly these if a free block follows |
| `LwipHeap.Heap.Init` | thirdparty/lwip-2.1.3/src/core/mem.c:515-545 | one free block and the end mark, consistent |
| `LwipHeap.Heap.FindFit` | thirdparty/lwip-2.1.3/src/core/mem.c:867-887 | the lowest free block with enough user space, or none has |
| `LwipHeap.Heap.TakeBlock` | thirdparty/lwip-2.1.3/src/core/mem.c:886-927 | splits the block if a further one fits, else takes it whole |
| `LwipHeap.Heap.NextFree` | thirdparty/lwip-2.1.3/src/core/mem.c:931-950 | advances the hint to the lowest free block |
| `LwipHeap.Heap.Malloc` | thirdparty/lwip-2.1.3/src/core/mem.c:830-976 | NULL iff the size is 0 or no free block has max(size, 12) bytes behind its header, else the lowest that has; the new area has at least so many and less than 24 more, and is apart from every live one; the heap stays a tiling with consistent links, no adjacent free blocks and the hint at the lowest free block; user bytes unchanged |
| `LwipHeap.Heap.PlugHoles` | thirdparty/lwip-2.1.3/src/core/mem.c:473-510 | joins with both free neighbours and restores the invariant |
| `LwipHeap.Heap.Release` | thirdparty/lwip-2.1.3/src/core/mem.c:669-686 | frees a block, lowers the hint if needed, joins |
| `LwipHeap.Heap.MoveNext` | thirdparty/lwip-2.1.3/src/core/mem.c:753-780 | moves the following free block down, keeping the invariant and user bytes |
| `LwipHeap.Heap.CutOff` | thirdparty/lwip-2.1.3/src/core/mem.c:781-804 | cuts a free block off before a block in use, keeping the invariant and user bytes |
| `LwipHeap.Heap.Free` | thirdparty/lwip-2.1.3/src/core/mem.c:616-686 | frees exactly a used block of the heap and its live area, ignores null, and fails an assertion on anything else before changing anything |
| `LwipHeap.Heap.Shrink` | thirdparty/lwip-2.1.3/src/core/mem.c:745-810 | the three ways of shrinking, and the assertion that fails |
| `LwipHeap.Heap.Trim` | thirdparty/lwip-2.1.3/src/core/mem.c:698-820 | which requests shrink, to max(size, 12) or less than 24 bytes more, and which fail an assertion: it shrinks iff the request is not larger and the block is not the last or leaves no room for a further block; only its live area changes; the invariant is kept, and where it does not shrink everything stays |
| `LwipHeap.TrimOfWholeHeapAborts` | thirdparty/lwip-2.1.3/src/core/mem.c:781-804 | a reachable case that aborts |
| `HeapSpec.AllocatedOk` | thirdparty/lwip-2.1.3/src/core/mem.c:886-927 | allocation keeps tiling, links, no adjacent free blocks and all user bytes |
| `HeapSpec.AllocatedFirst` | thirdparty/lwip-2.1.3/src/core/mem.c:931-950 | where the lowest free block is after an allocation |
| `HeapSpec.MovedOk` | thirdparty/lwip-2.1.3/src/core/mem.c:753-780 | trimming into a following free block keeps the invariant and user bytes |
| `HeapSpec.TrimCutOk` | thirdparty/lwip-2.1.3/src/core/mem.c:781-804 | trimming by a new free block keeps the invariant and user bytes |
| `HeapLaws.AllocatedLive` | thirdparty/lwip-2.1.3/src/core/mem.c:830-976 | an allocation adds one area of at least the requested size that overlaps no live one, and changes no other |
| `HeapLaws.ReleasedLive` | thirdparty/lwip-2.1.3/src/core/mem.c:616-686 | a free removes exactly its area |
| `HeapLaws.TrimmedLive` | thirdparty/lwip-2.1.3/src/core/mem.c:698-820 | a trim shrinks exactly its area, not below the request |
| `HeapLaws.FreeUndoesMalloc` | thirdparty/lwip-2.1.3/src/core/mem.c:616-686 | freeing what was just allocated gives the block list back |
| `HeapLaws.LayoutUnique` | thirdparty/lwip-2.1.3/src/core/mem.c:473-510 | two heaps without adjacent free blocks and with the same live areas have the same blocks |
| `HeapLaws.EmptyIsFresh` | thirdparty/lwip-2.1.3/src/core/mem.c:515-545 | when everything has been freed, in any order, the heap is as after init |
| `E1000Frags.Rounded` | lib/e1000.cpp:64 | rounds up to a multiple of 64 |
| `E1000Frags.PageGap` | lib/e1000.cpp:63-79 | two fragments lie at least twice as many allocations apart as pages, less one |
| `E1000Frags.RecentApart` | lib/e1000.cpp:63-79 | fragments at most 254 allocations apart do not overlap |
| `E1000Frags.MarginIsExact` | lib/e1000.cpp:63-79 | fragments 255 allocations apart can overlap |
| `E1000Transmit.FullTest` | lib/e1000.cpp:212-217 | the test for a full ring is that 255 packets lie behind the head last read |
| `E1000Transmit.Transmit.FragAlloc` | lib/e1000.cpp:63-79 | hands out the next fragment, always |
| `E1000Transmit.WriteKeeps` | lib/e1000.cpp:219-223 | copying into the new fragment changes no packet in flight |
| `E1000Transmit.DescKeeps` | lib/e1000.cpp:225-232 | writing the descriptor changes none in flight |
| `E1000Transmit.Transmit.DeviceStep` | lib/e1000.cpp:212-214 | a head advance sends exactly the next accepted packet |
| `E1000Transmit.Transmit.Publish` | lib/e1000.cpp:219-241 | one packet is put in place and handed to the device |
| `E1000Transmit.Transmit.Flush` | lib/e1000.cpp:244-251 | writes the tail register iff it is behind, and then it has caught up |
| `E1000Transmit.Transmit.Send` | lib/e1000.cpp:205-242 | with device steps between its actions: accepted iff the length is legal and the ring not full, and the wire is always a prefix of what was accepted |
| `ChecksumSpec.FoldTwice` | thirdparty/lwip-2.1.3/src/include/lwip/inet_chksum.h:50-53 | two folds bring any 32-bit sum to its 16-bit ones-complement value |
| `ChecksumSpec.SwapCanon` | thirdparty/lwip-2.1.3/src/include/lwip/inet_chksum.h:45-48 | swapping the bytes of a folded sum is multiplying by 256 |
| `ChecksumSpec.SumConcat` | thirdparty/lwip-2.1.3/src/core/inet_chksum.c:259-294 | the sum of a concatenation, the second part swapped behind an odd first |
| `Checksums.NoOverflow` | thirdparty/lwip-2.1.3/src/core/inet_chksum.c:132-173 | sums of up to 0x20002 bytes fit in 32 bits |
| `Checksums.OverflowIff` | thirdparty/lwip-2.1.3/src/core/inet_chksum.c:79-173 | all sums of n bytes fit in 32 bits iff n is at most 0x20002 |
| `ChecksumSpec.WrapLoses` | thirdparty/lwip-2.1.3/src/core/inet_chksum.c:79-173 | cutting a sum down to 32 bits keeps its folded value iff nothing is cut off, short of 65535 carries |
| `Checksums.Chksum1` | thirdparty/lwip-2.1.3/src/core/inet_chksum.c:79-114 | version 1 is the folded sum iff the accumulator fits in 32 bits, and so for up to 0x20002 bytes |
| `Checksums.Chksum2` | thirdparty/lwip-2.1.3/src/core/inet_chksum.c:132-173 | version 2 the same, for every alignment |
| `Checksums.AddLongs` | thirdparty/lwip-2.1.3/src/core/inet_chksum.c:211-228 | the unrolled loop with end-around carries keeps the folded value |
| `Checksums.Chksum3` | thirdparty/lwip-2.1.3/src/core/inet_chksum.c:188-255 | version 3 is the same for every alignment and length, and reads 32 bits only at aligned addresses |
| `Checksums.SumChain` | thirdparty/lwip-2.1.3/src/core/inet_chksum.c:262-284 | the accumulator over a chain of buffers of any lengths is the folded sum of the concatenation, at most 0xffff at each swap |
| `Checksums.ChksumPbuf` | thirdparty/lwip-2.1.3/src/core/inet_chksum.c:567-588 | the checksum of a chain is that of the concatenated bytes |
| `Checksums.ChksumPseudo` | thirdparty/lwip-2.1.3/src/core/inet_chksum.c:259-294 | the same with the pseudo header, its protocol and length in network order before the data |
| `Checksums.DucknetChecksum` | ducknet/lib/utils.cpp:68-92 | ducknet's checksum is the complement of the folded 32-bit sum; with zero start and up to 0x20002 bytes the complement of the three versions |
| `ChecksumSpec.ComplementVerifies` | ducknet/lib/ipv4.cpp:86-89 | a header with the complement in its zeroed field sums to 0xffff |
| `VirtioQueue.WrapPlace` | lib/virtio_net.cpp:247-248 | masking the wrapped 16-bit counter gives the place of the unbounded one |
| `VirtioQueue.WrapIs` | lib/virtio_net.cpp:248 | the counter is the wrapped one plus a multiple of 2^16, and its place plus a multiple of the ring |
| `VirtioQueue.WrapEqual` | lib/virtio_net.cpp:257-260 | wrapped counters at most 128 apart are equal only if the counters are |
| `VirtioQueue.StandsAppend` | lib/virtio_net.cpp:247-253 | a new ring entry overwrites none that is pending |
| `VirtioTransmit.Seed` | lib/virtio_net.cpp:230-236 | the seeding loop puts id at place -id of any ring and changes no other place |
| `VirtioQueue.SeedingOkIff` | lib/virtio_net.cpp:230-236 | after the seeding of any ring every descriptor is pending once iff the ring is full or the place behind the seeded ones was zero |
| `VirtioQueue.StartOk` | lib/virtio_net.cpp:230-236 | the start is a partition: every descriptor is pending in the used ring, once |
| `VirtioQueue.PoppedOk` | lib/virtio_net.cpp:255-265 | taking a used entry keeps the partition, and the ring holds the right id |
| `VirtioQueue.LocatedUsed` | lib/virtio_net.cpp:255-265 | an id pending in the used ring is nowhere else |
| `VirtioQueue.OfferedOk` | lib/virtio_net.cpp:247-253 | offering a descriptor keeps the partition |
| `VirtioTransmit.VirtQueue.Init` | lib/virtio_net.cpp:185-245 | from that condition on the ring memory the queue starts valid, with nothing sent |
| `VirtioTransmit.VirtQueue.PopUsed` | lib/virtio_net.cpp:255-265 | gives an id iff one is pending, the oldest, and that id is nowhere else |
| `VirtioTransmit.VirtQueue.AddAvail` | lib/virtio_net.cpp:247-253 | hands the buffer to the device |
| `VirtioTransmit.VirtQueue.FillBuffer` | lib/virtio_net.cpp:274-275 | when the buffer is written it is neither offered nor held by the device, and only it changes |
| `VirtioTransmit.VirtQueue.Send` | lib/virtio_net.cpp:267-282 | with device steps between its actions: false iff nothing is pending; the one buffer written is the oldest pending, neither offered nor held by the device; accepted packets are on the wire or unaltered in buffers the device can see |
| `VirtioTransmit.VirtQueue.SendAndReturn` | lib/virtio_net.cpp:255-265 | the device may return what it holds in any order |
| `ArpSpec.HitIffVisible` | ducknet/lib/arp.cpp:174-189 | a search hits iff the address is in the sorted part, or last and above all of it |
| `ArpSpec.PutSorted` | ducknet/lib/arp.cpp:159-170 | an update keeps all entries but the last strictly sorted and can be found |
| `ArpSpec.UpdateRecords` | ducknet/lib/arp.cpp:149-172 | every successful update keeps the table a record of the history of updates |
| `ArpSpec.SearchKnown` | ducknet/lib/arp.cpp:174-189 | a search gives exactly what that history lets it know |
| `ArpSpec.KnownIsLatestIff` | ducknet/lib/arp.cpp:149-189 | that is the latest value except exactly for the first address, covered by a larger one and not updated since |
| `ArpSpec.FirstAddressLost` | ducknet/lib/arp.cpp:149-189 | two updates lose an address |
| `ArpSpec.UpdateKnown` | ducknet/lib/arp.cpp:166-171 | an update can be read back at once |
| `ArpTable.Table.Search` | ducknet/lib/arp.cpp:150-158 | the binary search over all but the last slot |
| `ArpTable.Table.Lookup` | ducknet/lib/arp.cpp:174-189 | some iff visible, with the value, and what is known for every history |
| `ArpTable.Table.Update` | ducknet/lib/arp.cpp:149-172 | fails iff the table is full and no such address is visible |
| `ArpTable.Table.Ask` | ducknet/lib/arp.cpp:191-227 | inserts a query iff none is visible and there is room; nothing else is added or lost |
| `ArpTable.Table.Compact` | ducknet/lib/arp.cpp:82-98 | the in-place compaction keeps the unexpired entries in order |
| `ArpTable.KeptEntry` | ducknet/lib/arp.cpp:91-98 | exactly the unexpired entries stay |
| `ArpTable.KeptAlmostSorted` | ducknet/lib/arp.cpp:91-98 | and all but the last stay sorted, whichever go |
| `Arp.AddressResolution.Update` | ducknet/lib/arp.cpp:149-172 | adds to the history, fails only for an unknown address in a full table |
| `Arp.AddressResolution.Lookup` | ducknet/lib/arp.cpp:174-189 | after any run of updates, queries and idle passes |
| `Arp.AddressResolution.Query` | ducknet/lib/arp.cpp:191-227 | asks iff there is room and no visible query |
| `Arp.AddressResolution.Idle` | ducknet/lib/arp.cpp:72-101 | throttled; drops the expired queries and no address |
| `Clock.MulDivExact` | ducknet/lib/utils.cpp:28-34 | the split product is the exact rounded quotient |
| `Clock.AddMs` | ducknet/lib/utils.cpp:44-46 | adds milliseconds in ticks |
| `Bits.LowerBitIndex` | ducknet/lib/ipv4.cpp:96-102 | the lowest set bit |
| `DeferredSpec.FindFree` | ducknet/lib/ipv4.cpp:104-111 | the lowest free slot, or all are busy |
| `DeferredSpec.ReleasedSlots` | ducknet/lib/ipv4.cpp:163-169 | setting a bit frees exactly one slot |
| `DeferredSpec.ClaimedSlots` | ducknet/lib/ipv4.cpp:147 | clearing a bit claims exactly one slot |
| `DeferredQueue.SameNetIff` | ducknet/lib/ipv4.cpp:113-115 | the prefix test compares the leading bits |
| `DeferredSpec.SweepConserves` | ducknet/lib/ipv4.cpp:159-176 | a pass leaves each waiting packet as it is, drops it or sends it, none twice |
| `DeferredQueue.Ipv4.constructor` | ducknet/lib/ipv4.cpp:34-49 | address, gateway and prefix as configured, and the idle delay |
| `DeferredQueue.Ipv4.Init` | ducknet/lib/ipv4.cpp:34-49 | all slots free |
| `DeferredQueue.Ipv4.Send` | ducknet/lib/ipv4.cpp:117-149 | the hop is the destination if the leading bits agree with the own address, else the gateway; sent at once to the address known for the hop, or put with that hop and five seconds into the lowest free slot, or refused, and when; a query for the hop is made if none is visible and there is room; all other slots untouched |
| `DeferredQueue.Ipv4.SweepSlot` | ducknet/lib/ipv4.cpp:160-175 | one waiting packet: dropped if it has expired, else sent to the address known for its hop, else left |
| `DeferredQueue.Ipv4.Sweep` | ducknet/lib/ipv4.cpp:159-176 | each packet leaves once: dropped if late, else sent to the address known for its hop; every packet ever queued is waiting, sent or dropped |
| `DeferredQueue.Ipv4.Idle` | ducknet/lib/ipv4.cpp:151-178 | the pass runs at every so many calls or after the delay, and how the throttle moves on |
| `PageFlags.ClearPageFlagsBit` | lib/memory.cpp:39-44 | clears bits 0 to 8 and 63 and keeps the others |
| `PageFlags.EntryBit` | lib/memory.cpp:247-336 | which bits the setters change |
| `PageFlags.FlagValues` | lib/memory.cpp:37 | the flags as numbers |
| `PageFlags.EntryAccess` | lib/memory.cpp:247-336 | who may access the page after each setter; the accounting bits do not matter for it |
| `UserMemory.Memory.ResetFlags` | lib/memory.cpp:247-297 | the new entries; DUCK_WRITTEN stays, and unmarked pages stay zero |
| `UserMemory.Memory.AddFlags` | lib/memory.cpp:299-310 | adds bits to each entry of a range |
| `UserMemory.Memory.DropFlags` | lib/memory.cpp:312-336 | removes bits from each entry of a range |
| `UserMemory.Memory.MarkByDirty` | lib/memory.cpp:367-378 | every dirty page is marked, and what is not zero is marked again |
| `UserMemory.Memory.CopyMarked` | lib/memory.cpp:380-390 | a copy followed by marking the pages it touched keeps unmarked pages zero |
| `UserMemory.Memory.ClearWritten` | lib/memory.cpp:392-405 | clearing only the marked pages equals clearing all |
| `UserMemory.Memory.CountDirtyPages` | lib/memory.cpp:338-351 | the number of dirty pages |
| `UserMemory.Memory.constructor` | lib/memory.cpp:193-197 | all pages start marked, whatever they hold |
| `Loader.Span` | lib/elf.cpp:389-418 | lowest address and highest end of the segments |
| `Loader.Check` | lib/elf.cpp:403-488 | accepts exactly the admissible programs |
| `LoaderSpec.LayoutLeast` | lib/elf.cpp:425-488 | program memory, standard input, output and error, input buffer and output buffer follow one another, each with the least number of pages |
| `Loader.PrepareRegion` | lib/elf.cpp:501-511 | the region is as after a full clear |
| `Loader.CopyInputs` | lib/elf.cpp:513-547 | segments, standard input and buffers are copied over it |
| `Loader.ProtectSegment` | lib/elf.cpp:627-646 | the pages of one segment get its access, all others keep theirs |
| `Loader.Protect` | lib/elf.cpp:627-649 | every page ends with the access of the last segment that covers it; no page of the region is dirty |
| `LoaderSpec.AccessAfter` | lib/elf.cpp:501-649 | the access of every user page after the four phases of a load, and what becomes of the page at the break |
| `Loader.Load` | lib/elf.cpp:361-665 | memory is exactly what clearing the whole region and copying gives: above the program's memory the inputs and zeros, the pages of standard output and error empty and writable; every user page has the access its segments and buffers ask for; rejected programs change nothing; nothing at or above the break changes iff the region ends below it |
| `LoaderSpec.EagerAbove` | lib/elf.cpp:501-625 | no byte behind the header image changes, within its page or behind |
| `LoaderSpec.EagerImage` | lib/elf.cpp:549-552 | the page behind the region starts with the header image |
| `Loader.BreakIsReached` | lib/elf.cpp:403-488 | an admissible program whose region ends at the break, both ends of user memory at huge pages |
| `LoaderSpec.StartDetermined` | lib/elf.cpp:509-547 | a byte of the region at the start depends on this load alone |
| `LoaderSpec.StartZero` | lib/elf.cpp:509-511 | and is zero where this load did not write |
| `LoaderSpec.StartLast` | lib/elf.cpp:513-547 | where several copies overlap the last one counts |
| `LoaderSpec.StartInputs` | lib/elf.cpp:513-547 | each byte above the program's memory is that of standard input, input buffer or output buffer, or zero |
| `LoaderSpec.StartStack` | lib/elf.cpp:554-625 | the last page of the program's memory holds the stack at its end, zeros, and no segment |
| `LoaderSpec.StartSegments` | lib/elf.cpp:513-529 | below it there are the segments alone |
| `LoaderSpec.RegionAccess` | lib/elf.cpp:501-649 | inputs read-only, outputs writable, program memory writable or as its segments say, nothing else open to the program |
| `LoaderSpec.ProtectedLast` | lib/elf.cpp:627-646 | the last segment that covers a page decides its access |
| `Loader.Run` | lib/elf.cpp:688-726 | memory is as after the program's stores; the number of pages returned is that of the pages it wrote, and all of them are marked |
| `Loader.StoredByte` | lib/elf.cpp:688-726 | the last store to an address decides its byte |
| `Judging.Judge` | lib/elf.cpp:667-756 | over any sequence of programs each can read its own image and zeros, its header image, and behind that what the runs before it left in that page: nothing if the image fills it |
| `Judging.ReadableIff` | lib/elf.cpp:501-552 | a loaded program can read exactly its region and the page of the header image |
| `Judging.ViewParts` | lib/elf.cpp:509-552 | all it can read at the start: its own region, its header image, and the old bytes behind |
| `Judging.StartAloneIff` | lib/elf.cpp:509-552 | that is a function of the program alone iff its header image fills a page |
| `Judging.BothAccepted` | lib/elf.cpp:403-488 | two programs that are accepted, the first of which may write the page that becomes the image page of the second |
| `Judging.EarlierStoreShows` | lib/elf.cpp:549-552 | the second reads there whatever the first has stored |
| `PageWalk.GetPAddress` | lib/memory.cpp:98-116 | the address of get_Pk: k times index 511, the leading indices of vaddr, and the next index as offset |
| `PageWalk.RecursiveAddress` | lib/memory.cpp:98-116 | walking from the top at that address reaches the level-k entry of vaddr, for every level, address and tables with the recursive slot |
| `PageTables.Builder.Alloc` | lib/memory.cpp:52-62 | a page of an available huge page, never one in use; fails iff none is left |
| `PageTables.Builder.AllocZeroed` | lib/memory.cpp:64-68 | the same, zeroed, all other tables untouched |
| `PageTables.Builder.SetEntry` | lib/memory.cpp:70-73 | changes one entry of one table |
| `PageTables.Builder.Create` | lib/memory.cpp:75-80 | makes a table only where there is none |
| `PageTree.TableEntry` | lib/memory.cpp:75-80 | an entry made from a page and flags leads back to that page, for the walk and for clear_page_flags, and has the flags |
| `PageTree.LeafEntry` | lib/memory.cpp:193-197 | a page starts writable, closed to the user, and with its frame, a user page marked as written |
| `PageTree.AddP2` | lib/memory.cpp:189-190 | a new level-2 table keeps all translations |
| `PageTree.AddP1` | lib/memory.cpp:191-197 | a new level-1 table keeps all translations and adds its 512 |
| `PageTables.Builder.InitTop` | lib/memory.cpp:141-161 | the top of the tree with the recursive slot and the remapping; succeeds iff four pages are left |
| `PageTree.RemapWalk` | lib/memory.cpp:152-157 | the address of the remapping for any physical address below 512 GiB walks to a 1 GiB page that translates it to that address |
| `PageTables.Builder.MapKernel` | lib/memory.cpp:163-172 | one 2 MiB of the kernel, mapped to itself |
| `PageTables.Builder.MapUser` | lib/memory.cpp:186-199 | one 2 MiB of user memory |
| `PageTables.Builder.Init` | lib/memory.cpp:177-205 | succeeds iff the reserved pages are enough for the tables; the finished tree: the kernel maps itself, user memory goes to the available huge pages above the tables, in order |
| `PageReserve.TableBreak` | lib/memory.cpp:118-139 | the break lies behind as many available huge pages as are reserved, or is 0 if the scan does not meet so many |
| `PageReserve.ReservedRoom` | lib/memory.cpp:52-62 | the pages to be had below the break are 512 for each reserved huge page, and the others are to be mapped |
| `PageReserve.SufficesIff` | lib/memory.cpp:118-139 | the reservation suffices iff the level-1 tables of the kernel fit into what the rounding leaves |
| `PageReserve.ReservationFallsShort` | lib/memory.cpp:121-126 | the exact numbers of huge pages for which the reservation does not suffice with a kernel of 16 MiB |
| `PageTables.InitPageTables` | lib/memory.cpp:207-213 | the whole construction succeeds iff the scan finds the reservation and that suffices, and then the tree maps the kernel and all available huge pages above the tables, in order |
| `PageTree.BuiltWalk` | lib/memory.cpp:177-205 | every address below the break walks to its level-1 table and translates to its frame |
| `PageTree.BuiltAccess` | lib/memory.cpp:149-197 | every level allows writing; the upper levels let the user through to user memory and not to the kernel, and at the start no page is open to the user |
| `PageTree.UserAddresses` | lib/memory.cpp:98-205 | get_P1 reaches the entry that translates the address; different pages have different frames, all at or above the break |
| `PageTables.Builder.UserPages` | lib/memory.cpp:98-205 | in the finished tables different user pages have different frames, none of them holding a page table, and get_P1 reaches their entries |

## Left out

- Hardware access: ports, MSRs, traps, PCI, TLB, memory barriers and cache control. Registers are fields and device steps are methods.
- Inside a `memcpy` no device step is let in; steps fall at the places that `Send` of either driver names.
- Receive paths of both network drivers, and the virtio descriptor fields for flags and addresses: a buffer and its length are one sequence of bytes.
- DuckCaching.DuckCache.constructor: requires a cache larger than its tables and a page; the source reboots otherwise, and returns false when virtual memory cannot be allocated. It also requires room for one object: with none a store would write outside the tables.
- DuckCaching.DuckCache.Store: requires a positive clock, since 0 marks an evicted object, and a length whose rounding does not wrap at 64 bits.
- DuckCaching.DuckCache.OrderIds: models `std::sort` by selection; any order by last use is allowed by what is proved about the eviction.
- Solver.StreamSolver.Process: requires digits and, as the callers do, a `prepare` after each batch; the order of reports between the four moduli is not modelled, each modulus has its own list.
- Latency statistics and the text of requests of the solver; parsing and replies of the cache server.
- LwipHeap.Heap.Trim: as the source demands, an address within the heap is that of a block in use; what `mem_trim` makes of other bytes there is not modelled.
- LwipHeap.Heap.Free: a pointer that is no user pointer but whose supposed header is marked used and happens to be linked both ways, which the checks of `mem_free` cannot tell from a block, is excluded.
- Heap locking, overflow checks and statistics, which the configuration switches off, and `mem_calloc`.
- VirtioTransmit.VirtQueue.Send: requires a packet of at most the 1600 bytes of a buffer; the source copies without a test.
- ARP packets and their handling; the byte layout of IPv4 packets, of which only the header checksum is modelled.
- Clock.AddMs: no wrap at 64 bits.
- DeferredQueue.Ipv4.Send: a frame counts as sent when it is given to the physical layer; that layer's own refusal is not modelled.
- Parsing of the ELF file, the layout of the start stack and the auxiliary vector: segments, header image and pushed bytes are inputs. `load_elf64` has the same memory effects at another address.
- Loader.Load: Faulted is the page fault of the header image when no page is mapped behind the region; what the kernel does then is not modelled. Sizes are unbounded: every wrap that the source tests for makes it reject, and so does the unbounded sum.
- Loader.Run: the program's stores are any stores within its region; that read-only pages trap is not modelled.
- PageTables.Builder.Init: what the kernel does after the assertion on page_table_break has failed is not modelled.
- `allocate_virtual_memory`, `map_region_cache_disabled` and `user_writable_check`, which would add only easy members.
- Syscalls, multiboot, documentation and sample code; lwIP beyond heap and checksums.
