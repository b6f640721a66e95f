# xlinux in Dafny

Models of the hard core of the xlinux RISC-V kernel, with proofs about every input, every run and every reachable state.
`dafny verify dfyconfig.toml` checks all files.

| part | modules |
|---|---|
| arithmetic and words | `Bits`, `Log2`, `Words` |
| buddy allocator | `BuddyBlocks` (blocks and canonical families), `BuddyLists` (free lists and runs), `BuddyZone` (pages and lists in place) |
| memblock | `Intervals`, `MemblockRegions`, `MemblockCursor`, `MemblockReverse`, `MemblockAlloc`, `BootHandoff` |
| device tree | `Fdt`, `FdtScan` |
| exec stack | `UserMemory`, `WordAtATime`, `ExecStrings`, `ElfTables` |
| page tables | `Sv39`, `Ioremap` |
| ext2 and readahead | `Ext2`, `Mpage` |
| device-number map | `KobjMapSpec`, `KobjMap` |
| bitmaps and their users | `Bitmap`, `Irq`, `FdTable` |
| buffer cache | `BufferLru`, `BufferCache` |
| formatting | `Numerals`, `Vsprintf`, `FormatPieces` |

Code that updates state in place is a class or a method on arrays, proved against a specification on values; the properties
are lemmas about the specification, or invariants that every method keeps.
`panic` and `BUG_ON` are outcomes, with the exact condition where one can be given.
What the code takes from elsewhere is a parameter: whether an allocation succeeds, which pages are left for page tables,
what a probe answers and registers, what the device does with a page.
Integers are unbounded; widths and wrap-around are written out where the code depends on them.

Six expectations do not hold of the code as it stands, and each has its exact condition and an input that fails:
rounding up to a frame number wraps for a run that starts in the last page of the address space, which then hands over every
frame (`BootHandoff.FramesExactly`, `BootHandoff.LastPageExample`);
a device range of about 2^52 numbers is put into too few buckets (`KobjMapSpec.HugeRangeUnreached`, `KobjMapSpec.ReachesExactly`),
which a lookup notices when that range is the narrowest (`KobjMapSpec.BucketFindsNarrowestOfAll`);
the sign flag of `%d` sticks to later conversions (`Vsprintf.SignSticks`, and for each conversion `FormatPieces`);
a page-table entry that is neither empty nor a table is taken for a table when a range behind it is to be mapped
(`Ioremap.OutcomeExactly`, `Ioremap.LargePageInTheWay`);
numbers with n / base at or above 2^60 can be printed but not read back (`Numerals.RoundTrip`, `Numerals.LargestNotReadBack`);
and a search for interrupt numbers that fails can wrap around and pass its tests (`Irq.PassesExactly`, `Irq.HugeCountStrays`).

## Model

| member | source | states |
|---|---|---|
| `BuddyBlocks.BuddyHalves` | include/mm.h:208-212 | For every aligned block below the top order, the exclusive-or buddy is its own inverse, is aligned, and makes with the block the two halves of the block that the "and" of the two frame numbers names. |
| `BuddyBlocks.SplitHalves` | buddy/buddy.c:655-667 | The two halves of a block are aligned and are each other's buddies. |
| `BuddyBlocks.FullyCoalesced` | buddy/buddy.c:543-578 | In a canonical family (aligned, pairwise apart, no two buddies both free below the top order) an aligned stretch of free frames lies inside one single block. |
| `BuddyBlocks.CanonicalUnique` | buddy/buddy.c:543-578 | Two canonical families that cover the same frames are the same family. |
| `BuddyLists.FreedCorrect` | buddy/buddy.c:543-578 | Freeing an aligned block whose frames are not free keeps the list invariant and adds exactly those frames. |
| `BuddyLists.ExpandedCorrect` | buddy/buddy.c:655-667 | Splitting a block down to an order keeps the invariant: the lists and the remaining block together hold exactly the frames from before. |
| `BuddyLists.TakenCorrect` | buddy/buddy.c:673-693 | Taking a block of an order yields an aligned block of free frames and removes exactly those; it fails exactly when no aligned block of that order is wholly free. |
| `BuddyLists.PageCountIsFreeFrames` | buddy/buddy.c:485-517 | The list lengths weighted by block size add up to the number of free frames. |
| `BuddyLists.StepSafe` | buddy/buddy.c:543-693 | Any allocation or release keeps the invariant over free and held blocks and neither loses nor invents a frame. |
| `BuddyLists.RunSafe` | buddy/buddy.c:543-693 | The same over every run of allocations and releases. |
| `BuddyLists.RunRestores` | buddy/buddy.c:543-693 | After any run that ends with the same blocks held as at its start, every free list holds the same set of blocks as at the start. |
| `BuddyZone.Zone.Do` | buddy/buddy.c:543-693 | One allocation or release on the pages and lists in place is the step of the specification; what the client holds says that a release is allowed. |
| `BuddyZone.Zone.Run` | buddy/buddy.c:543-693 | Every run of allocations and releases in place keeps marks, orders, counts and lists in step and gives what the specification gives, block for block. |
| `BuddyLists.TakeThenFree` | buddy/buddy.c:543-693 | Taking a block and giving it back restores the same set of free blocks at every order. |
| `BuddyLists.SameFreeSameBlocks` | buddy/buddy.c:543-578 | The set of free frames determines the free blocks. |
| `BuddyZone.BlockInMap` | include/mm.h:208-212 | In a page map with ends on the largest-block boundary, a block that starts in the map lies in it, and so do its buddy and their union: no buddy lookup leaves the map. |
| `BuddyZone.Zone.constructor` | buddy/buddy.c:235-244 | A zone with no page marked starts valid with nothing free. |
| `BuddyZone.Zone.AddToFreeList` | buddy/buddy.c:485-494 | One list gets the frame in front and its count goes up; all else is as it was. |
| `BuddyZone.Zone.AddToFreeListTail` | buddy/buddy.c:497-506 | One list gets the frame at its end and its count goes up; all else is as it was. |
| `BuddyZone.Zone.SetPageOrder` | buddy/buddy.c:458-462 | One page is marked as a buddy with its order; no other page changes. |
| `BuddyZone.Zone.DelPageFromFreeList` | buddy/buddy.c:508-517 | The block leaves its list, marks and counts still agree with the lists, and no other list or page changes. |
| `BuddyZone.Zone.PageIsBuddyMeansListed` | buddy/buddy.c:439-456 | The page-flag test holds exactly when the frame heads a block on the list of that order. |
| `BuddyZone.Zone.MergeLikelyAgrees` | buddy/buddy.c:464-482 | The test of the page flags says whether the buddy of the next larger block is free. |
| `BuddyZone.Zone.PlaceBlock` | buddy/buddy.c:566-578 | The final insertion, at head or tail, refines the specification and keeps marks, orders and counts in step with the lists. |
| `BuddyZone.Zone.FreeOnePage` | buddy/buddy.c:543-578 | The merge loop on pages and lists keeps the whole invariant, refines the specification, and frees exactly the frames of the block. |
| `BuddyZone.Zone.Expand` | buddy/buddy.c:655-667 | The split loop keeps the whole invariant and refines the specification. |
| `BuddyZone.Zone.RmqueueSmallest` | buddy/buddy.c:673-693 | The search refines the specification: an aligned free block leaves the free frames, and it fails exactly when there is none. |
| `BuddyZone.Zone.FreePagesCore` | buddy/buddy.c:616-631 | Every page of the block has its count and reserved bit cleared, the managed count grows by the block size, and the block becomes free. |
| `Intervals.SeparatedUnique` | memblock/memblock.c:87-107 | Sorted, strictly separated, non-empty regions are determined by the addresses they cover. |
| `Intervals.SumIsMeasure` | memblock/memblock.c:74-85 | The sum of the sizes of sorted regions is the number of addresses they cover. |
| `MemblockRegions.AddedCorrect` | memblock/memblock.c:109-187 | Adding a range gives the set union, sorted and fully merged. |
| `MemblockRegions.AddedCommutes` | memblock/memblock.c:109-187 | Two ranges added in either order give the same array. |
| `MemblockRegions.FillLength` | memblock/memblock.c:131-187 | The counting pass predicts how many regions the inserting pass adds. |
| `MemblockRegions.MemblockType.constructor` | memblock/memblock.c:53-66 | A zero-filled array is valid and covers nothing. |
| `MemblockRegions.MemblockType.TotalSizeIsMeasure` | memblock/memblock.c:74-85 | total_size is the number of addresses covered. |
| `MemblockRegions.MemblockType.InsertRegion` | memblock/memblock.c:74-85 | The shifted array is the old one with one region inserted, and total_size grows by its size. |
| `MemblockRegions.MemblockType.Scan` | memblock/memblock.c:131-167 | The counting pass returns exactly the number of regions that the inserting pass inserts, and the inserting pass fills exactly the gaps. |
| `MemblockRegions.MemblockType.AddInTwoPasses` | memblock/memblock.c:131-187 | Count, check against max, insert, merge: max is never exceeded, and a full array is left untouched. |
| `MemblockRegions.MemblockType.MergeRegions` | memblock/memblock.c:87-107 | The in-place loop joins all touching neighbours. |
| `MemblockRegions.MemblockType.AddRange` | memblock/memblock.c:109-187 | Set union with the capped range, total_size kept, and the overflow panic exactly when the counted insertions do not fit. |
| `MemblockCursor.UnpackPack` | memblock/memblock.c:532-597 | The packed cursor gives both indices back, minus one included, and equals the end marker only for the pair (-1, -1). |
| `MemblockCursor.NextCorrect` | memblock/memblock.c:532-597 | One forward step finds the lowest free run that is left and skips nothing. |
| `MemblockCursor.RunsFrom` | memblock/memblock.c:532-597 | From any cursor, the runs still to come are exactly the free addresses not yet passed, sorted and separated. |
| `MemblockCursor.RunsAreFreeRuns` | include/memblock.h:16-51 | From cursor 0 they are the maximal runs of memory minus reserved. |
| `MemblockCursor.NextMemRange` | memblock/memblock.c:532-597 | The nested loops over two arrays and a packed cursor compute that step; the cursor is the end marker exactly when nothing is left. |
| `MemblockCursor.ForEachFreeRange` | include/memblock.h:16-51 | Driving the cursor from 0 terminates and yields exactly the maximal free runs. |
| `MemblockReverse.PrevCorrect` | memblock/memblock.c:278-343 | One backward step finds the highest free run that is left. |
| `MemblockReverse.NextMemRangeRev` | memblock/memblock.c:278-343 | The reverse loops compute that step, with the end marker as both start and finish. |
| `MemblockReverse.ForEachFreeRangeReverse` | include/memblock.h:16-51 | Driving the reverse cursor from ULLONG_MAX terminates and yields exactly the maximal free runs from the top. |
| `MemblockReverse.WalksAgree` | memblock/memblock.c:278-343 | The forward list is the reverse of the backward list. |
| `MemblockAlloc.CandidateGreatest` | memblock/memblock.c:196-216 | Within one run the clamped and rounded address is the greatest aligned base that fits, and 0 exactly when none does. |
| `MemblockAlloc.FindRangeTopDown` | memblock/memblock.c:196-226 | The search returns the greatest aligned base whose range is free and inside the limits, and 0 exactly when there is none. |
| `MemblockAlloc.Memblock.Add` | memblock/memblock.c:109-187 | Memory grows by the capped range and the reserved array is untouched; it fails exactly when the array has no room for the uncovered stretches. |
| `MemblockAlloc.Memblock.Reserve` | memblock/memblock.c:345-349 | The reserved array grows by the capped range; it fails exactly when the array has no room for the uncovered stretches. |
| `MemblockAlloc.Memblock.AllocRange` | memblock/memblock.c:228-248 | Allocates the greatest free aligned range at or above the first page and reserves it; NoMemory exactly when none fits; panics exactly when stopped or when the array has no room for that greatest range. |
| `MemblockAlloc.OnlyGrows` | memblock/memblock.c:109-187 | Over any boot sequence both arrays only grow. |
| `MemblockAlloc.AllocationsDisjoint` | memblock/memblock.c:228-248 | Over any boot sequence no address is allocated twice. |
| `MemblockAlloc.AllocationsOwned` | memblock/memblock.c:228-248 | An allocated address is in memory, was never reserved before, and stays reserved. |
| `MemblockAlloc.Memblock.Boot` | memblock/memblock.c:109-248 | For every sequence of additions, reservations and allocations up to the first panic, the two arrays in place go through such a boot, one event per request, and no address is handed out twice. |
| `BootHandoff.PfnUpExact` | memblock/memblock.c:450-462 | Rounding up to a frame is right exactly for addresses that do not exceed 2^64 - 4096. |
| `BootHandoff.FramesExactly` | memblock/memblock.c:450-481 | The frames handed over are those inside each run and below the limit, exactly when no run starts in the last page of the address space or the limit is 0. |
| `BootHandoff.LastPageTakesAll` | memblock/memblock.c:450-462 | A run that starts in the last page hands over every frame below the limit, none of which lies in it. |
| `BootHandoff.LastPageExample` | memblock/memblock.c:450-462 | Such a run: 99 bytes from 2^64 - 100. |
| `BootHandoff.BlockOrder` | memblock/memblock.c:433-448 | The block order is the largest that the alignment of the start, MAX_ORDER and the end allow. |
| `BootHandoff.FreePagesMemory` | memblock/memblock.c:433-448 | The cut into blocks frees exactly the frames of the range and counts them. |
| `BootHandoff.WholeFrameInOneRun` | memblock/memblock.c:450-481 | A frame is handed over by some run exactly when it lies wholly in memory minus reserved and below the limit. |
| `BootHandoff.FreeMemoryCore` | memblock/memblock.c:450-462 | One run frees exactly the whole frames inside it below the limit and returns their number. |
| `BootHandoff.FreeLowMemory` | memblock/memblock.c:464-481 | All runs together free exactly the frames wholly in memory minus reserved and below the limit. |
| `BootHandoff.FreeAll` | memblock/memblock.c:488-504 | After the hand-off a frame is free in the buddy lists exactly when it lies wholly in memory minus reserved and below max_low_pfn; the returned count, the pages on the lists and the managed pages are equal; a second call stops the machine. |
| `Fdt.TagAlignIs` | include/fdt.h:21-24 | The mask expression rounds up to a multiple of four. |
| `Fdt.NextTag` | early_dt/early_dt.c:124-173 | At the offset of a token of a serialised blob it returns that token's tag and the offset of the next token. |
| `FdtScan.NopsInvisible` | early_dt/early_dt.c:175-213 | NOP tokens anywhere change nothing a scan learns. |
| `FdtScan.ScanFlatten` | early_dt/early_dt.c:175-213 | Scanning the serialisation of a subtree yields its preorder and leaves the rest to be scanned. |
| `FdtScan.ScanIsPreorder` | early_dt/early_dt.c:225-244 | Scanning a serialised tree with any NOP padding yields its preorder with true depths. |
| `FdtScan.NextNode` | early_dt/early_dt.c:175-213 | The tag loop finds the next node with its depth, or the end. |
| `FdtScan.GetName` | early_dt/early_dt.c:96-106 | The name of the node at a node tag. |
| `FdtScan.ScanFlatDt` | early_dt/early_dt.c:225-244 | For every serialised tree and every callback, the callback is called on the nodes in preorder with their depths, up to the first that returns non-zero, whose value is returned. |
| `FdtScan.NextProp` | early_dt/early_dt.c:246-269 | The next property before any node tag, or an error. |
| `FdtScan.StringEq` | early_dt/early_dt.c:302-327 | Comparison with the strings block is equality of whole names. |
| `FdtScan.GetProperty` | early_dt/early_dt.c:329-358 | The first property of that name before the first child, with its length and data, or nothing. |
| `FdtScan.PropertyOfVisit` | early_dt/early_dt.c:329-358 | At the offset a scan reports for a node, the lookup finds the first property of that name of that node of the tree and never one of a child. |
| `ExecStrings.Bprm.StackLimits` | fs/exec.c:129-162 | Sets the lowest address strings may reach, exactly when the pointer vectors fit under the limit. |
| `ExecStrings.Bprm.CopyString` | fs/exec.c:214-249 | The backward page-sized chunks put the string and its NUL below the old pointer and change nothing else; the exact condition of success. |
| `ExecStrings.Bprm.CopyStrings` | fs/exec.c:251-261 | All strings end up packed in order below the old pointer; the exact condition of success. |
| `ElfTables.PointersAt` | fs/binfmt_elf.c:140-253 | The i-th pointer is the address of the i-th packed string. |
| `WordAtATime.MaskFindsZero` | include/word-at-a-time.h:14-22 | For every word the mask is 0 exactly when no byte is, and else its lowest set bit is the top bit of the first zero byte. |
| `WordAtATime.LowOnes` | include/word-at-a-time.h:30-34 | (b - 1) and not b: exactly the ones below the lowest set bit. |
| `WordAtATime.BlotLow` | include/bitops.h:5-5 | Or-ing in the aligned byte mask sets the first bytes to 0xff and leaves the rest. |
| `WordAtATime.HasZero` | include/word-at-a-time.h:14-22 | The mask of an eight-byte word, with the constants of the source. |
| `WordAtATime.FindZero` | include/word-at-a-time.h:24-39 | From the mask, the position of the first zero byte. |
| `WordAtATime.DoStrnlenUser` | lib/string.c:354-402 | The word-at-a-time scan from any alignment finds what a byte-by-byte scan finds. |
| `WordAtATime.StrnlenUser` | lib/string.c:404-431 | The length with the NUL when there is one within count; more than count when the string is longer; 0 when the address space ends first. |
| `ElfTables.PutVectors` | fs/binfmt_elf.c:215-247 | argc, the argv pointers, NULL, the envp pointers, NULL, found by walking the packed strings. |
| `ElfTables.CreateElfTables` | fs/binfmt_elf.c:140-253 | The table of words below the strings is argc, argv, envp and the auxiliary vector; the random bytes lie between; sp is 16-byte aligned; the strings are untouched. |
| `ElfTables.ImageMade` | fs/binfmt_elf.c:140-253 | Strings and table together make the stack image: each pointer leads to its intact NUL-terminated string. |
| `ElfTables.KernelExecve` | fs/exec.c:355-400 | The whole round trip, with the exact condition under which it succeeds. |
| `Sv39.SetPte` | include/pgtable.h:103-107 | In tables that share no page, writing a last-level entry changes the translation of that page alone. |
| `Sv39.LinkPmd` | include/pgtable.h:160-165 | Hanging an empty middle table into an empty root slot changes no translation. |
| `Sv39.LinkPte` | include/pgtable.h:179-184 | Hanging an empty last-level table into an empty slot changes no translation. |
| `Ioremap.IndicesOf` | include/page.h:61-80 | The three shift-and-mask indices are the three nine-bit digits of the page number. |
| `Ioremap.PmdAddrEndIs` | include/pgtable.h:96-99 | The 64-bit expression gives the end of the block or of the range, whichever comes first. |
| `Ioremap.PgdAddrEndIs` | include/pgtable.h:138-141 | The same for the blocks of the root table. |
| `Ioremap.PageTables.constructor` | ioremap/ioremap.c:94-114 | An empty root table is valid and translates nothing. |
| `Ioremap.PageTables.PmdAllocTrack` | ioremap/ioremap.c:11-21 | Gives the middle table for an address, made if missing; no translation changes; no table only when no page is left, or when the slot holds something else. |
| `Ioremap.PageTables.PteAllocTrack` | ioremap/ioremap.c:23-50 | Gives the last-level table for an address, made if missing; no translation changes; no table only when no page is left, or when the slot holds something else. |
| `Ioremap.PageTables.PteRange` | ioremap/ioremap.c:52-72 | Maps the pages of one last-level table, or those before the page it stops at: one in use, one behind a slot that holds no table, or one for which no table can be made. |
| `Ioremap.PageTables.PmdRange` | ioremap/ioremap.c:74-92 | The same for the pages below one root slot, across last-level tables. |
| `Ioremap.PageTables.IoremapPageRange` | ioremap/ioremap.c:94-114 | On success every page of the range was vacant and now translates to its frame, across any table boundaries; otherwise exactly the pages before the one it stops at do; no other translation changes. Bug stops at a page in use, NoMemory at a vacant one with no page left for a table, Stray at one behind an entry that is neither empty nor a table, which the first page always gives. |
| `Ioremap.OutcomeExactly` | ioremap/ioremap.c:94-114 | Memory permitting, the first page that is not vacant decides: success exactly when there is none, Bug exactly when its walk is open, Stray exactly when it is not. |
| `Ioremap.StraysAtOnce` | ioremap/ioremap.c:11-50 | A range whose first page lies behind an entry that is neither empty nor a table always strays. |
| `Ioremap.LargePageInTheWay` | ioremap/ioremap.c:11-21 | Such tables: a large page in the first slot of the root. |
| `Ioremap.MappingFrame` | ioremap/ioremap.c:94-114 | Whatever the outcome, no page outside the range changes its translation. |
| `Ioremap.MappingJoins` | ioremap/ioremap.c:74-114 | A mapped stretch and the outcome of the next one give the outcome of both together. |
| `Ext2.PathOfBlock` | ext2/inode.c:46-86 | Every block number in range has a valid path, and the path tells the block. |
| `Ext2.BlockOfPath` | ext2/inode.c:46-86 | Every valid path belongs to exactly one block number in range: with the row above, a bijection. |
| `Ext2.BoundaryExact` | ext2/inode.c:82-83 | The next blocks up to the boundary, and no further, are named by the same table. |
| `Ext2.BlockToPath` | ext2/inode.c:46-86 | The branches with shifts and masks fill in that path and boundary, and panic exactly outside the range. |
| `Ext2.VerifyChain` | ext2/inode.c:95-100 | Says whether every link still holds what was read. |
| `Ext2.GetBranch` | ext2/inode.c:102-127 | Fills the chain along the path, and panics exactly when a hole or an unreadable block lies on it. |
| `Ext2.SameTable` | ext2/inode.c:155-176 | Up to the boundary, the next entries of the last table are what the single lookups of the next blocks give. |
| `Ext2.GetBlocks` | ext2/inode.c:129-200 | Each of the reported blocks is what its own lookup gives; the run is maximal within the boundary and the request; the boundary flag is exact; the panics are exact. |
| `Ext2.GetBlock` | ext2/inode.c:202-222 | The same for the count asked for, kept in 32 bits. |
| `Mpage.Args.CopyRun` | fs/mpage.c:117-133 | Copies as many block numbers as the mapping and the page allow and drops the mapping exactly when it is used up. |
| `Mpage.Args.CollectBlocks` | fs/mpage.c:100-187 | With the carried mapping and as many lookups as needed, the block list of a page is what one lookup per block gives; it panics exactly when the page is not one run of blocks inside the file, or when the 32-bit size of the window is 0 and the carried mapping does not give the whole page; the mapping carried on is right. |
| `Mpage.Args.AddPage` | fs/mpage.c:192-220 | In each case what the log and the bio become: a page that follows the bio on disk joins it, for any other the bio is handed on and the page is read directly or starts a new one; when it panics; every bio stays consecutive. |
| `Mpage.Args.SubmitBio` | fs/mpage.c:59-65 | The bio goes to the device as it is. |
| `Mpage.Args.ReadPage` | fs/mpage.c:67-221 | One page: its blocks as looked up one by one are appended to what is read, in order; the exact condition under which it panics. |
| `Mpage.Args.Readahead` | fs/mpage.c:238-253 | A readahead that does not panic hands the device every page once, in order, each with the blocks that one lookup per block gives; which pages may stop it, and exactly which do when bios can be had and the window does not wrap around. |
| `Mpage.BioContiguous` | fs/mpage.c:192-220 | Each block of each page in a bio lies where one transfer from the bio's sector reaches it. |
| `KobjMapSpec.CoversInterval` | kobject/map.c:91-92 | The 64-bit test is membership in the interval, for ranges that are not empty and do not wrap. |
| `KobjMapSpec.ReachesExactly` | kobject/map.c:50-55 | A registration is in the bucket of every device number it covers exactly when its 32-bit bucket count did not come out too small. |
| `KobjMapSpec.OrdinaryRangesReach` | kobject/map.c:50-55 | Every non-empty range ending below 2^52 - 2^20 is reached. |
| `KobjMapSpec.HugeRangeUnreached` | kobject/map.c:50-55 | A range of 2^52 numbers covers every device and is put into no bucket. |
| `KobjMapSpec.EmptyRangeUnreached` | kobject/map.c:50-55 | So is the empty range from 0, whose last number wraps around. |
| `KobjMapSpec.BucketFindsNarrowest` | kobject/map.c:80-105 | For every list of registrations, the first covering one in a bucket is the narrowest of those that are in the bucket, the newest among equals. |
| `KobjMapSpec.BucketFindsNarrowestOfAll` | kobject/map.c:80-105 | It is the narrowest of all registrations exactly when nothing covers the device, or the narrowest is the base one, or it is in the bucket. |
| `KobjMapSpec.NarrowestExact` | kobject/map.c:80-105 | The narrowest is defined by comparison with every other registration; there is none exactly when nothing covers the device. |
| `KobjMapSpec.LookupNarrows` | kobject/map.c:80-105 | Whatever probes register while they run, each registration asked is narrower than the one before: the retry loop ends. |
| `KobjMapSpec.LookupAsksOnce` | kobject/map.c:80-105 | When probes register nothing, only the narrowest registration is asked. |
| `KobjMapSpec.LookupExactly` | kobject/map.c:80-105 | When probes register nothing, the buckets ask what the flat list of all registrations would ask exactly under that condition, or when the narrowest has the empty range in both, which stops the walk. |
| `KobjMapSpec.LookupOfAll` | kobject/map.c:80-105 | When every registration that covers the device is in its bucket, those that probes make included, the buckets and the flat list of all registrations give the same lookup. |
| `KobjMap.Map.constructor` | kobject/map.c:19-38 | All 255 buckets start as the one shared base node. |
| `KobjMap.Map.LinkInto` | kobject/map.c:67-73 | The node is inserted in range order, newest first among equals; every other chain and the base node are untouched. |
| `KobjMap.Map.Register` | kobject/map.c:41-76 | Every bucket holds exactly the registrations that belong to it, narrow ranges first, with the new one added. |
| `KobjMap.Map.FindFirst` | kobject/map.c:87-92 | The walk finds the first covering node of the bucket. |
| `KobjMap.Map.Lookup` | kobject/map.c:79-105 | For every map, the linked buckets give what the flat list of the registrations in the bucket of the device gives: the same answer, the same registrations asked, the same registrations made. |
| `Log2.Ffs` | include/log2.h:15-50 | The halving steps give the position of the lowest set bit of a word, and 63 for the word 0. |
| `Log2.Fls64` | include/log2.h:88-122 | The doubling steps give the number of bits of a word. |
| `Bitmap.FindNextBit` | lib/find_bit.c:8-44 | The word-at-a-time search gives the first bit at or after start that differs from invert, or nbits. |
| `Bitmap.AlignIndexIs` | bitmap/bitmap.c:20-22 | The mask expression in 64 bits gives the least aligned index that is not smaller, for every offset, wrapped around or not. |
| `Bitmap.FindNextZeroArea` | bitmap/bitmap.c:9-33 | The least aligned index at or after start with nr clear bits inside size, or a value above size exactly when none exists; for areas larger than the map, or a start beyond it, the value is the first aligned clear index plus nr; it terminates. |
| `Bitmap.BitmapSet` | bitmap/bitmap.c:36-54 | Exactly the bits [start, start + len) become set. |
| `Irq.IrqTable.constructor` | irq/irqdesc.c:18-19 | No number in use. |
| `Irq.IrqTable.InsertDescs` | irq/irqdesc.c:93-110 | One descriptor per number of the range, none else. |
| `Irq.IrqTable.AllocDescs` | irq/irqdesc.c:115-140 | The range handed out is the lowest unused one, or the one asked for; bitmap, tree and ranges handed out agree and never overlap; each of the five outcomes has its exact condition; a failed search passes the tests exactly when 32-bit wrap-around makes its result look right. |
| `Irq.PassesExactly` | irq/irqdesc.c:130-137 | A result of the search passes both tests because it is a range inside the table, or because it strays. |
| `Irq.FitsExactly` | irq/irqdesc.c:130-137 | The result of the search passes both tests and lies in the bitmap exactly when an unused range fits the table. |
| `Irq.MeetsExactly` | irq/irqdesc.c:130-134 | The search ends at the number asked for exactly when the range there is unused or a failed search wraps around to it. |
| `Irq.SmallCountsDoNotStray` | irq/irqdesc.c:130-137 | No count up to 2^31 less the size of the bitmap strays. |
| `Irq.HugeCountStrays` | irq/irqdesc.c:130-137 | 2^31 numbers from 0 on, asked of an empty table, do. |
| `FdTable.SetBit` | include/bits.h:78-84 | Exactly one bit becomes set. |
| `FdTable.ClearBit` | include/bits.h:86-92 | Exactly one bit becomes clear. |
| `FdTable.Files.constructor` | include/fdtable.h:15-34 | Nothing open. |
| `FdTable.Files.FindNextFd` | fs/file.c:12-25 | The two-level search gives what a linear scan of the open bits gives. |
| `FdTable.Files.SetOpenFd` | fs/file.c:52-58 | One descriptor becomes open and the upper level still marks exactly the full words. |
| `FdTable.Files.ClearOpenFd` | fs/open.c:88-92 | One descriptor becomes closed and the upper level still marks exactly the full words. |
| `FdTable.Files.AllocFd` | fs/file.c:63-100 | The lowest closed descriptor at or after start; EMFILE and the panic exactly when it lies at or above the limit or the table; every descriptor below next_fd stays open. |
| `FdTable.Files.PutUnusedFd` | fs/open.c:94-100 | One descriptor becomes closed and the invariant stays. |
| `FdTable.Files.Run` | fs/file.c:63-100 | Every sequence of calls gives, call for call, what searching a plain set for the lowest number gives. |
| `FdTable.FlatAllocIs` | fs/file.c:63-100 | The three outcomes told by which descriptors are open are those of the plain search. |
| `BufferLru.FrontKeeps` | fs/buffer.c:94-106 | Moving to the front keeps the length and brings in no duplicate and no stranger. |
| `BufferLru.Install` | fs/buffer.c:94-106 | The swap loop puts the head in front, followed by the old entries without it, cut to the length. |
| `BufferLru.Lookup` | fs/buffer.c:31-54 | A hit moves to the front; a miss means that no entry matches and changes nothing. |
| `BufferCache.AllocPageBuffers` | fs/buffer.c:146-173 | As many new heads as blocks in the page, each with its offset in the page and linked to the head of the next block. |
| `BufferCache.LinkDevBuffers` | fs/buffer.c:175-187 | The walk to the last head closes the circle. |
| `BufferCache.InitPageBuffers` | fs/buffer.c:205-233 | Going around the circle, the heads get consecutive block numbers, and are mapped exactly inside the device. |
| `BufferCache.Cache.FindSlow` | fs/buffer.c:62-92 | Going around the circle finds the head of the block in its page, nothing when the page has no buffers, a panic exactly beyond the device. |
| `BufferCache.Cache.FindGetBlock` | fs/buffer.c:108-123 | A hit in the list and the slow path give the same head, which ends up in front. |
| `BufferCache.Cache.HeadIsListed` | fs/buffer.c:108-123 | A listed head is what the search of the page finds for its block. |
| `BufferCache.Cache.SizeBits` | fs/buffer.c:276-279 | The shift loop finds the binary logarithm of the blocks in a page. |
| `BufferCache.Cache.Grow` | fs/buffer.c:235-285 | Adds the buffers of one page and changes no other. |
| `BufferCache.Cache.GetblkSlow` | fs/buffer.c:287-308 | Grows exactly once when the page is missing, then finds; panics exactly beyond the device or on a block size it does not accept. |
| `BufferCache.Cache.Getblk` | fs/buffer.c:310-319 | Returns the block's own head with its number, always the same one since pages are never replaced, and panics exactly beyond the device, or on a block size it does not accept when the page has no buffers yet. |
| `Numerals.ParseDigits` | lib/vsprintf.c:434-469 | Reading a numeral with anything after it. |
| `Numerals.RoundTrip` | lib/vsprintf.c:108-148 | The reader gives back the number written, for every n with n / base < 2^60 in bases 8, 10 and 16, and overflows exactly otherwise. |
| `Numerals.LargestNotReadBack` | lib/vsprintf.c:434-469 | 2^64 - 1 in bases 8 and 10 is one of those that are not read back. |
| `Numerals.ParseInteger` | lib/vsprintf.c:434-469 | The reading loop with its mask test of the top bits. |
| `Numerals.SimpleStrtoull` | lib/vsprintf.c:409-494 | Base from the prefix, then the digits. |
| `Numerals.AutoDecimal` | lib/vsprintf.c:409-424 | With the base left open, every decimal numeral is read as the decimal number it is. |
| `Numerals.AutoHex` | lib/vsprintf.c:409-424 | With "0x" in front, every hexadecimal numeral is read back, the base left open or given. |
| `Vsprintf.DigitsInto` | lib/vsprintf.c:112-136 | The digit loops give the numeral backwards and never pass the 24 places of their buffer. |
| `Vsprintf.PutNumber` | lib/vsprintf.c:108-148 | Appends the numeral, with a minus sign when the flag and the top bit are set. |
| `Vsprintf.StringNocheck` | lib/vsprintf.c:66-82 | Appends the string. |
| `Vsprintf.FormatDecode` | lib/vsprintf.c:150-216 | Splits off a literal part or one conversion. |
| `Vsprintf.Vsnprintf` | lib/vsprintf.c:251-322 | For every format and arguments, the returned length does not depend on the size, and the buffer holds the first min(size - 1, length) characters of the full text, a NUL, and then what was there before. |
| `Vsprintf.Sprintf` | lib/vsprintf.c:339-362 | The same when no size is given and the buffer takes the whole text. |
| `Vsprintf.SignSticks` | lib/vsprintf.c:198-213 | A %d makes a later %u print as signed. |
| `FormatPieces.FullIsRender` | lib/vsprintf.c:251-322 | The text of a format is that of its pieces, literal parts and conversions, each conversion with the next argument and with the sign flag set exactly when a conversion before it is d or i. |
| `FormatPieces.UnsignedExactly` | lib/vsprintf.c:198-213 | In every format, %u prints the unsigned value exactly when no d or i conversion stands before it or bit 31 is clear. |
| `FormatPieces.UnsignedLongExactly` | lib/vsprintf.c:198-213 | %lu does exactly when no d or i conversion stands before it or bit 63 is clear. |
| `FormatPieces.HexOctalExactly` | lib/vsprintf.c:198-213 | %x, %X and %o do exactly when no d or i conversion stands before them or bit 31 is clear; else they print the argument extended by its sign. |
| `FormatPieces.LongHexOctalAlways` | lib/vsprintf.c:198-213 | %lx, %lX, %lo and %p print the value wherever they stand. |
| `FormatPieces.SignedAlways` | lib/vsprintf.c:198-213 | %d, %i, %ld and %li print the signed value wherever they stand. |
| `Vsprintf.PrintThenParse` | lib/vsprintf.c:251-469 | Text printed with one long conversion and read back is the number again, under the bound of the reader. |

## Left out

- BuddyZone.Zone.FreeOnePage: one zone; per-cpu page lists, zone fallback and the reference-count gate in front of freeing are not modelled.
- BuddyZone.Zone.constructor: pages start with the base bits of `page_type` set, so that the buddy mark is a single bit; where the kernel sets them is not part of this model.
- BootHandoff.FreeAll: assumes that no free run starts in the last page of the address space, the exact condition of `BootHandoff.FramesExactly`, and that the page map covers memory; marking reserved pages and the global page counter are left out.
- MemblockCursor.NextMemRange: the iterator over one array alone (no second array) and the flag and node filters are left out.
- MemblockAlloc.FindRangeTopDown: alignments are powers of two, as its rounding macro needs.
- Fdt.NextTag: blobs that are not serialised trees; the error paths for them are not modelled.
- WordAtATime.StrnlenUser: loads and stores of user memory that fault; the address space is a whole number of words.
- ElfTables.KernelExecve: path lookup, credentials, the binary format search and the segments of the program.
- Ioremap.PageTables.IoremapPageRange: the choice of the virtual area; what the code does once it has taken the frame named by another entry for a table; page-table pages come from a list of free zeroed pages.
- Ext2.GetBranch: the blocks do not change while a lookup runs, so the re-check of the chain always succeeds; an unreadable block is one missing from the device.
- Mpage.Args.ReadPage: holes, a last page cut short and other file systems end in the panic that the source has for them.
- KobjMap.Map.Lookup: the index handed to the probe.
- Irq.IrqTable.AllocDescs: what happens to memory once a search that failed has passed the tests; on a panic in the middle of the insertions nothing is said about the table.
- Bitmap.FindNextZeroArea: maps and counts so large that their sum wraps around in 64 bits.
- Bitmap.FindNextBit: the second bitmap that could be and-ed in, which no caller passes.
- FdTable.Files.AllocFd: growing the table, which the source answers with a panic, and the array of file pointers.
- BufferCache.Cache.Getblk: one block size per device, which is the one asked for; locking and writeback.
- Vsprintf.Vsnprintf: a buffer shorter than both the size and the text, which the code writes past; a missing argument counts as a bad conversion; field widths and precisions, which the source does not parse; the truncation of the result to `int`.
- Slab, red-black tree, xarray, VMA, scheduler, virtio, blk-mq and mq-deadline code, path lookup, mounts, driver binding, console output and hardware access are not part of this model.
