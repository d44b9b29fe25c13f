# Verified model of the kernel's memory stack, its decoder, its checksum and its matcher

This Dafny project models the parts of the repository with the most state and arithmetic, and proves what they
are for:

- **Physical pages** (`Bitmaps.dfy`, `PageFrames.dfy`, `PageAllocators.dfy`): the bitmap, the three counters and the
  cursor of the page allocator. No page that was handed out alone is ever handed out again, and the counters are
  right in every run.
- **Page tables** (`Paging.dfy`, `PageTrees.dfy`, `TableDemands.dfy`, `VirtualMemories.dfy`, `ClonePlans.dfy`,
  `PageMapMirrors.dfy`, `PageMapClones.dfy`, `StaleEntries.dfy`, `MappingLoops.dfy`, `KernelMappings.dfy`): 4-level tables as
  in section 4.5 of volume 3A of the Intel SDM, in a memory of 2^40 frames. `map` and `unmap` change exactly one
  translation, a clone translates what the original translates, and `init_virtual` maps memory and the kernel. How many
  pages each of them takes, and so whether it panics, is settled before the call.
- **Start-up** (`BitmapPlacements.dfy`, `PhysicalInits.dfy`, `BitmapCollisions.dfy`): `init_physical` maps low memory under a
  first bitmap and then writes the full bitmap into memory. Exactly when this spares the page tables is settled before the
  first call of `map`; two machines on which it does not are worked out.
- **Kernel heap** (`HeapSegments.dfy`, `HeapRuns.dfy`, `HeapBacking.dfy`, `KernelHeaps.dfy`): the linked list of headers in
  memory refines a list of segments; `malloc` terminates; `free` undoes it; live payloads never overlap and are never
  written.
- **Inflate** (`Words.dfy`, `BitReversal.dfy`, `BitReaders.dfy`, `HuffmanCodes.dfy`, `HuffmanTables.dfy`,
  `HuffmanDecoders.dfy`, `DeflateBlocks.dfy`, `StoredBlocks.dfy`, `CodeTables.dfy`, `DeflateStreams.dfy`,
  `Inflaters.dfy`): the decoder of RFC 1951 in `include/ssfn.h`. Its fast and slow tables decode the canonical code, and
  the whole decoder inverts every encoding of stored, fixed and dynamic blocks.
- **CRC-32** (`Crc32.dfy`, `EfiTables.dfy`) and the **glob matcher** (`Glob.dfy`) of gnu-efi.

`Wrappers.dfy` holds what they share.

## How to read it

State that the source updates in place is a class with the same fields; each of its methods is proved against a
function or predicate on values, and the properties are lemmas about those. Operations that run out of physical pages
follow the source: `panic` returns in it, so the model records that it was called (`panicked`). What is promised does not
hang on that, but on the state before the call: there is a panic if and only if there are fewer pages than tables (and heap
pages) are missing (`PageFrames.RequestPage` hands out as many as `TableDemands.FreePages` says). Frame 0 doubles as the null pointer, as in the source. A page is *held* if it lies below the cursor
or its bit is set; page tables live in held pages.

Where the decoder reads input, the source relies on bytes behind the stream: it refills its bit buffer whenever fewer
bits than it may need are in it, until more than 24 are. The reference functions (`DeflateBlocks.Block`,
`DeflateStreams.Stream`) follow how many bits are in the buffer and say `Undefined` exactly where a refill would read
past the input; the methods ask for input on which they do not. The theorems about encodings ask for 25 bits behind
the stream, with which that cannot happen.

Some definitions are hidden behind a predicate `Shown`, which is always true: they open in a proof only where it is
mentioned, which keeps proofs quick and has no meaning of its own. A lemma beside each of them, whose name ends in `Means`
or `Mean`, says what it stands for.

## Where the code differs from its intention

The model does what the code does:

- `map` writes the NX value into the Global flag and overwrites the flags of upper-level entries
  (`kernel/memory/virtual_memory_manager.cc:72-73`). So no page of the kernel is global, although `init_virtual` asks for it
  (`KernelMappings.KernelMapped`).
- `clone_active_page_map` takes page 0 for a failed request (line 181), so as long as page 0 is free it fails without a panic
  (`PageMapClones.CloneOutcome`).
- `clone_active_page_map` zeroes only the new root (line 188); entries that the original lacks keep what a fresh page
  contained. The clone is faithful if and only if `ClonePlans.FreshPagesClean` holds before the call
  (`PageMapClones.IsClone`). `StaleEntries` has an instance where it does not: the clone then translates too much, and
  mapping in the clone changes the original.
- `init_virtual` unmaps the null page in the map that was active before (line 280), so in a new map the null page stays
  mapped. Without an argument it does not zero its root (line 286): `KernelMappings.InitVirtualOnFreshPage` says what
  the page may hold, and that in a root whose entry 0 leads to itself page 0 is not mapped in the end.
- `request_pages` compares page numbers with the length of the bitmap in bytes
  (`kernel/memory/physical_memory_manager.cc:139`); it searches an eighth of the pages. `PageFrames.RequestPagesSucceeds`
  has the exact condition, `PageFrames.RequestPagesRefusesFreePages` an instance.
- `init_physical` adds a number of pages to an address in bytes when it looks for a segment for the bitmap
  (`kernel/memory/physical_memory_manager.cc:196`), and does not look at the size of the bitmap at all.
  `BitmapPlacements.TestMeetsIntention` says when the bitmap fits in the segment and in the memory that is mapped,
  `BitmapPlacements.TestOverreaches` has two segments that pass although it does not.
- `init_physical` writes the full bitmap over whatever lies there (line 255), also over page tables: over those that it
  started with, or over those that its mapping loop has just taken from the very segment. The map is right in the end,
  whatever the bytes of the bitmap, if and only if `BitmapPlacements.Harmless` holds before the loop
  (`PhysicalInits.InitPhysical`); in a segment that is large enough that means that there are enough free pages before it
  (`BitmapPlacements.HarmlessInSegment`). `BitmapCollisions` has a machine for each case on which the bytes of the bitmap
  break the map.
- The decoder accepts incomplete codes (`HuffmanCodes.AcceptedIsKraft`), length symbols 286 and 287 as matches of length
  zero and distance symbols 30 and 31 as distance zero (`DeflateBlocks.ReservedSymbolsAccepted`).
- The CRC field of a table protects against changes of four consecutive bytes only if they do not straddle its edge
  (`EfiTables.ChangeDecides`, `EfiTables.StraddlingChangeMissed`).

## Model

| member | source | states |
|---|---|---|
| Bitmaps.MostSignificantFirst | kernel/bitmap.cc:17-38 | the bits of a byte are counted from its most significant one |
| Bitmaps.WriteBitUpdatesBits | kernel/bitmap.cc:27-38 | clearing and setting one bit of one byte changes exactly one bit of the whole bitmap |
| Bitmaps.Bitmap.Init | kernel/bitmap.cc:10-15 | installs another buffer, all of whose bits are clear |
| Bitmaps.Bitmap.Test | kernel/bitmap.cc:17-25 | reads the bit of the index; false beyond the buffer |
| Bitmaps.Bitmap.Set | kernel/bitmap.cc:27-38 | changes exactly the bit of the index, and fails without effect beyond the buffer |
| PageAllocators.PageAllocator.LockPage | kernel/memory/physical_memory_manager.cc:33-43 | sets one bit and moves one page between the counters, unless the page is locked or outside the bitmap |
| PageAllocators.PageAllocator.FreePage | kernel/memory/physical_memory_manager.cc:50-59 | the same in the other direction |
| PageAllocators.PageAllocator.LockPages | kernel/memory/physical_memory_manager.cc:45-48 | locks the pages one by one |
| PageAllocators.PageAllocator.FreePages | kernel/memory/physical_memory_manager.cc:61-79 | frees the pages one by one |
| PageAllocators.PageAllocator.RequestPage | kernel/memory/physical_memory_manager.cc:81-106 | hands out the lowest clear page at or above the cursor and below the number of pages, locks it and moves the cursor behind it; panics if there is none |
| PageAllocators.PageAllocator.RequestPages | kernel/memory/physical_memory_manager.cc:108-173 | one page goes to `request_page`; two or more are the lowest run of clear pages at or above the cursor that ends below the length of the bitmap in bytes; otherwise null |
| PageFrames.RequestPagesSucceeds | kernel/memory/physical_memory_manager.cc:139-172 | within its two guards it finds a run if and only if there is one that ends below an eighth of the bitmap, so skipping past a failed run misses none |
| PageFrames.RequestPagesRefusesFreePages | kernel/memory/physical_memory_manager.cc:139-157 | after `init_physical` on a memory of 303 pages, with the kernel at 1 MiB and 63 pages free in a row, two pages cannot be had |
| PageFrames.RequestPagesEffect | kernel/memory/physical_memory_manager.cc:158-166 | the run was clear, exactly its bits are set afterwards, the counters move by its length and the cursor stays |
| PageFrames.RequestPageEffect | kernel/memory/physical_memory_manager.cc:81-106 | the same for a single page: the lowest clear one from the cursor on, exactly its bit is set, the counters move by one and the cursor is behind it; there is none if and only if all are set |
| PageFrames.LockRangeEffect | kernel/memory/physical_memory_manager.cc:45-48 | locking a range sets exactly the bits of the range |
| PageFrames.RequestPageHolds | kernel/memory/physical_memory_manager.cc:81-106 | the page handed out was not held before, and it is the only one that becomes held (below the cursor, or bit set) |
| PageFrames.SinglePagesNeverReissued | kernel/memory/physical_memory_manager.cc:81-173 | over any run of lock, free, both requests and bitmap changes, a page from `request_page` lies below every page handed out later |
| PageFrames.SwapBitmapEffect | kernel/memory/physical_memory_manager.cc:252-277 | after the change of bitmap a page is clear exactly if it is conventional memory outside the bitmap and the kernel |
| PageFrames.SwapBitmapCounted | kernel/memory/physical_memory_manager.cc:254-277 | after the change of bitmap the counters are right whatever they were before |
| PageFrames.CountersStayRight | kernel/memory/physical_memory_manager.cc:33-59 | over any run the used counter is the number of set bits, and both counters add up to the number of pages plus one modulo 2^64 |
| PageAllocators.PageAllocator.InitInitialBitmap | kernel/memory/physical_memory_manager.cc:220-233 | the first bitmap of `init_physical`, in place |
| PageAllocators.InitialStateEffect | kernel/memory/physical_memory_manager.cc:220-233 | in that bitmap a page below 64 MiB is clear exactly if it is conventional memory outside the kernel |
| PageAllocators.PageAllocator.CountSegments | kernel/memory/physical_memory_manager.cc:187-203 | counts all pages, and finds the segment that is chosen for the bitmap |
| PageAllocators.TotalPagesOfBoth | kernel/memory/physical_memory_manager.cc:189-203 | the total counts the pages of every segment, wherever it stands in the list |
| PageAllocators.ChosenSegment | kernel/memory/physical_memory_manager.cc:192-201 | that is a largest one of those that pass the test |
| BitmapPlacements.TestMeetsIntention | kernel/memory/physical_memory_manager.cc:195-196 | every frame that the bitmap reaches into belongs to the segment and to the memory that is mapped if and only if the size of the bitmap allows it |
| BitmapPlacements.TestOverreaches | kernel/memory/physical_memory_manager.cc:195-196 | a segment of one page in 4 GiB of memory, and one right below 64 MiB, pass the test although the bitmap does not fit |
| PageAllocators.PageAllocator.SwapBitmap | kernel/memory/physical_memory_manager.cc:252-277 | the second bitmap, in place, is the specified one |
| Paging.WordSetAddressFields | include/memory/paging.hpp:54-60 | on the 64-bit word: the address reads back, and flags and all other bits keep their values |
| Paging.WordSetFlagSame | include/memory/paging.hpp:62-70 | a flag that is set reads back |
| Paging.WordSetFlagOther | include/memory/paging.hpp:62-70 | other flags keep their values |
| Paging.WordSetFlagKeepsAddress | include/memory/paging.hpp:62-70 | the address keeps its value |
| Paging.IndicesDeterminePage | include/memory/paging.hpp:23-35 | two addresses have the same four indices if and only if they lie in the same page of the low 48 bits |
| PageTrees.WriteEntryFrame | kernel/memory/virtual_memory_manager.cc:64-74 | writing one entry leaves every walk alone that does not use that entry |
| PageTrees.LinkTable | kernel/memory/virtual_memory_manager.cc:59-75 | linking a zeroed page that is not a table changes no translation, and the tables remain a tree |
| VirtualMemories.ApplyFlags | kernel/memory/virtual_memory_manager.cc:64-73 | every flag is taken from the mapping, except that Global ends up as the value of NX, and NX and the address stay |
| VirtualMemories.VirtualMemory.EnsureTable | kernel/memory/virtual_memory_manager.cc:57-75 | one level of `map`, exactly, on any memory |
| VirtualMemories.StepEnsures | kernel/memory/virtual_memory_manager.cc:57-75 | what that level does in an owned hierarchy: it panics if and only if the entry is not present and there is no page; otherwise the entry leads to a table, no translation changes, and that entry alone has the flags of the mapping |
| VirtualMemories.VirtualMemory.Map | kernel/memory/virtual_memory_manager.cc:14-135 | in an owned hierarchy, with Present set and LargerPages clear, it panics if and only if there are fewer pages than tables are missing on the path, and otherwise the page of the address translates to the given page, every other one as before or not at all as before, exactly the entries on the path have the flags of the mapping and all others are as before, the tables remain a tree in held pages, and exactly the missing tables are added, in the next pages of the allocator; and on any memory, with any flags, its exact effect |
| VirtualMemories.MappedMapsOne | kernel/memory/virtual_memory_manager.cc:14-135 | that exact effect does all of this |
| TableDemands.RequestedFree | kernel/memory/physical_memory_manager.cc:81-106 | n requests for one page panic if and only if fewer than n clear pages lie between the cursor and the number of pages |
| TableDemands.DemandAppend | kernel/memory/virtual_memory_manager.cc:57-129 | what two lists of mappings take together is what the first takes and then the second |
| TableDemands.RequestedReaches | kernel/memory/physical_memory_manager.cc:81-106 | a clear page is among the next n pages handed out if and only if fewer than n clear pages lie before it |
| TableDemands.GrownOneMore | kernel/memory/virtual_memory_manager.cc:57-129 | over a list of mappings the tables that get added, and so the pages taken, are those on the paths that lack one at the start |
| VirtualMemories.MapThroughEffect | kernel/memory/virtual_memory_manager.cc:57-129 | that effect: one link changes, and only tables on the path are written |
| VirtualMemories.VirtualMemory.Unmap | kernel/memory/virtual_memory_manager.cc:142-163 | one entry is cleared, at the end of the addresses on the path, present or not; if the tables are there, exactly the translation of the page is removed |
| PageMapMirrors.MirrorStable | kernel/memory/virtual_memory_manager.cc:189-242 | a copied table stays a copy while its pages are not written |
| PageMapMirrors.MirrorTranslates | kernel/memory/virtual_memory_manager.cc:189-242 | the copy leads to the very pages that the original leads to |
| PageMapMirrors.MirrorSameTables | kernel/memory/virtual_memory_manager.cc:202-218 | the copy has tables on exactly the same paths if and only if no unwritten entry of a fresh page was present |
| ClonePlans.EntriesPages | kernel/memory/virtual_memory_manager.cc:189-242 | which fresh pages a clone uses is settled before the call: they are the pages that become held |
| ClonePlans.EntriesPlaces | kernel/memory/virtual_memory_manager.cc:189-242 | and each is for the copy of one table of the original |
| PageMapClones.CleanPagesFaithful | kernel/memory/virtual_memory_manager.cc:176-244 | if no page that the allocator can hand out holds a present entry, the clone is a tree of its own, disjoint from the original, with equal translations |
| StaleEntries.StaleEntryShows | kernel/memory/virtual_memory_manager.cc:188-205 | a clone that is not faithful: it translates an address which the original does not |
| StaleEntries.StaleEntryReachesOriginal | kernel/memory/virtual_memory_manager.cc:188-205 | mapping that address in the clone changes a translation of the original |
| StaleEntries.MappingThroughCopies | kernel/memory/virtual_memory_manager.cc:176-244 | whatever the fresh pages contained, mapping an address in the clone for which the original has tables leaves the original as it is |
| ClonePlans.CopiesEachTable | kernel/memory/virtual_memory_manager.cc:189-242 | a clone of a tree takes as many pages as the tree has tables |
| PageMapClones.CloneActivePageMap | kernel/memory/virtual_memory_manager.cc:176-244 | with page 0 held, it succeeds if and only if there are as many pages as the original has tables, and panics if and only if not; otherwise it fails. On success every translation of the original is one of the clone, through new pages, and the original is unchanged; the clone is faithful (a separate tree with the same translations) if and only if the fresh pages it will use are clean, which can be checked before the call |
| MappingLoops.MapRange | kernel/memory/virtual_memory_manager.cc:264-278 | the mapping loops: from the round on in which the hierarchy is owned they panic if and only if there are fewer pages than tables are missing on all their paths, and otherwise each round adds its mapping with its flags and its missing tables, and keeps all earlier mappings |
| KernelMappings.KernelRoundsCount | kernel/memory/virtual_memory_manager.cc:271-274 | the second loop maps the pages that the kernel and one byte more lie in, and one page behind them |
| KernelMappings.MapMemoryAndKernel | kernel/memory/virtual_memory_manager.cc:258-278 | unless there are too few pages, and only then it panics: every address below the end of memory is mapped to itself and every byte of the kernel, up to one page behind it, at its virtual address, writable and not global; all other pages are as before; in a root whose entry 0 leads to itself all but page 0 |
| KernelMappings.InitVirtual | kernel/memory/virtual_memory_manager.cc:258-283 | the same for the new active map, before one entry of the map that was active is cleared; if that map has tables for the null page, then the null page is unmapped in the new map if and only if they are the same; in a root whose entry 0 leads to itself it is not mapped whatever map was active; on the null table nothing is mapped |
| KernelMappings.InitVirtualOnFreshPage | kernel/memory/virtual_memory_manager.cc:285-287 | everything is mapped in a fresh root if what it holds is a separate hierarchy of tables in use; page 0 is not mapped in the end if its entry 0 leads to itself |
| KernelMappings.FreshRootSeparate | kernel/memory/virtual_memory_manager.cc:285-287 | a fresh page without present entries is one |
| KernelMappings.SelfMappedOnce | kernel/memory/virtual_memory_manager.cc:285-287 | a root whose entry 0 leads to itself is not owned, but is owned after the first round, which does not map page 0 |
| PhysicalInits.InitPhysical | kernel/memory/physical_memory_manager.cc:180-277 | for a tree of tables in locked low memory: the counters are right, it panics if and only if the mapping loop needs more pages than there are, and otherwise low memory is mapped to itself, writable, and nothing else changes until the bitmap is written, and that map is right afterwards, whatever the bytes of the bitmap, if and only if no table was there or has been taken from there |
| PhysicalInits.RightIfHarmless | kernel/memory/physical_memory_manager.cc:252-277 | the same about any memory that the mapping loop leaves |
| PhysicalInits.BitmapMapped | kernel/memory/physical_memory_manager.cc:252-255 | a bitmap that fits is written through the map that was just made |
| PhysicalInits.BitmapHeld | kernel/memory/physical_memory_manager.cc:274 | the pages of the bitmap are held, so no table gets there later |
| BitmapPlacements.SparedOrBroken | kernel/memory/physical_memory_manager.cc:255 | what is written over a range leaves the map right whatever it is if and only if no table is hit |
| BitmapPlacements.TablesSettled | kernel/memory/physical_memory_manager.cc:241-251 | which frames hold tables after the mapping loop is settled before it |
| BitmapPlacements.FewTablesTaken | kernel/memory/physical_memory_manager.cc:241-251 | the mapping loop never takes more than 34 pages |
| BitmapPlacements.HarmlessInSegment | kernel/memory/physical_memory_manager.cc:192-255 | a bitmap that fits in its segment does no harm if and only if there are at least as many clear pages before it as the mapping loop takes |
| BitmapCollisions.BitmapOnFirstTable | kernel/memory/physical_memory_manager.cc:192-255 | with 48 MiB free behind 64 KiB in use, the bitmap is put where the mapping loop takes its first table |
| BitmapCollisions.FirstTableBroken | kernel/memory/physical_memory_manager.cc:255-277 | there its bytes break the map whenever `init_physical` is done, without a panic |
| BitmapCollisions.BitmapOnRoot | kernel/memory/physical_memory_manager.cc:192-255 | with one free page and 4 GiB in use, the bitmap goes over the root behind it |
| BitmapCollisions.RootBroken | kernel/memory/physical_memory_manager.cc:255-277 | and its bytes break the map whenever `init_physical` is done, without a panic |
| PhysicalInits.TablesStayHeld | kernel/memory/physical_memory_manager.cc:252-277 | tables in reserved memory, or taken from the first bitmap, are held under the second one |
| MappingLoops.MapAll | kernel/memory/virtual_memory_manager.cc:14-135 | any run of `map` on one hierarchy gives each page the translation and the flags of its last mapping and leaves a disjoint hierarchy alone; it panics if and only if there are fewer pages than tables are missing at the start |
| HeapSegments.TakeWellFormed | kernel/memory/heap.cpp:169-188 | splitting or taking a segment keeps the tiling, the minimal length and that no two neighbours are free |
| HeapSegments.FreeWellFormed | kernel/memory/heap.cpp:215-217 | so does freeing and combining |
| HeapSegments.ExpandWellFormed | kernel/memory/heap.cpp:119-149 | so does growing |
| HeapSegments.TwoExpansionsSuffice | kernel/memory/heap.cpp:203-205 | after two expansions a segment fits, for every size |
| HeapSegments.OneExpansionSuffices | kernel/memory/heap.cpp:119-149 | when nothing fits, one expansion is enough if and only if the rest of the last new page has room for a header and eight bytes |
| HeapRuns.FreeUndoesTake | kernel/memory/heap.cpp:49-86 | freeing what was just taken restores the list of segments and all marks |
| HeapRuns.FreeUndoesMalloc | kernel/memory/heap.cpp:151-221 | `free(malloc(n))` restores the heap, up to an extension of its free tail by the bytes of the expansions |
| HeapRuns.ReachableHeap | kernel/memory/heap.cpp:19-221 | in every reachable state the segments tile the heap, none is shorter than eight bytes and no two neighbours are free |
| HeapRuns.LiveUntilFreed | kernel/memory/heap.cpp:151-221 | a live payload keeps its address and length until it is freed |
| HeapRuns.ReachablePayloadsDisjoint | kernel/memory/heap.cpp:151-221 | live payloads never overlap |
| KernelHeaps.MergeRepresents | kernel/memory/heap.cpp:28-37 | combining two headers in memory is merging two segments of the list |
| KernelHeaps.SplitRepresents | kernel/memory/heap.cpp:61-83 | splitting a header in memory is splitting a segment of the list |
| KernelHeaps.KernelHeap.InitHeap | kernel/memory/heap.cpp:88-117 | one free segment over one page, which is mapped if there are enough pages for it and its missing tables; otherwise, and only then, there is a panic |
| KernelHeaps.KernelHeap.CombineForward | kernel/memory/heap.cpp:19-38 | the linked list is that of the combined segments; no byte of a live payload is written |
| KernelHeaps.KernelHeap.CombineBackward | kernel/memory/heap.cpp:40-47 | the same for the segment before |
| KernelHeaps.KernelHeap.Split | kernel/memory/heap.cpp:49-86 | splits exactly if both parts have at least eight bytes, and otherwise changes nothing; no other live payload is written |
| KernelHeaps.KernelHeap.ExpandHeap | kernel/memory/heap.cpp:119-149 | the heap and its free tail grow by whole pages, each backed by a page of its own if there are enough for them and their missing tables; otherwise, and only then, there is a panic |
| KernelHeaps.KernelHeap.Search | kernel/memory/heap.cpp:166-194 | takes the lowest free segment of equal length or at least 33 bytes longer, and otherwise changes nothing |
| KernelHeaps.KernelHeap.Malloc | kernel/memory/heap.cpp:151-206 | terminates, with at most two expansions; returns the payload of a segment of exactly the rounded size; no byte of a live payload is written; what it adds to the heap is backed, or it panics, under the same condition |
| KernelHeaps.KernelHeap.Free | kernel/memory/heap.cpp:208-221 | the list is that of the freed and combined segments; no byte of a payload that stays live is written |
| HeapBacking.ExtensionMeans | kernel/memory/heap.cpp:129-136 | that condition, for any growth: as many pages as are added and as tables are missing on their paths; then no other translation changes, and exactly those pages are taken |
| HeapBacking.ExtensionsJoin | kernel/memory/heap.cpp:203-205 | growing twice is growing once by both amounts |
| HeapBacking.BackedGrows | kernel/memory/heap.cpp:129-136 | mapping a fresh page behind the heap keeps all heap pages on distinct physical pages that hold no table |
| BitReversal.BitReverse16Reads | include/ssfn.h:476-483 | the four swaps read the low 16 bits most significant first |
| BitReversal.BitReverseReads | include/ssfn.h:485-488 | reversing a code gives the number whose bits are those of the code in stream order |
| BitReaders.ByteMoved | include/ssfn.h:554-560 | moving a byte into the bit buffer leaves the unread bits as they are |
| BitReaders.BitReader.FillBits | include/ssfn.h:554-560 | unread bits are unchanged and more than 24 are in the buffer, wherever that many are left |
| BitReaders.BitReader.Receive | include/ssfn.h:562-570 | the next bits, least significant first, are consumed and returned |
| HuffmanCodes.PrefixFree | include/ssfn.h:490-535 | no canonical code starts another one |
| HuffmanCodes.CanonicalOrder | include/ssfn.h:502-535 | the rules of section 3.2.2 of RFC 1951: codes of one length are consecutive in the order of their symbols, shorter ones come before longer ones, and the first is zero |
| HuffmanCodes.AcceptedIsKraft | include/ssfn.h:502-515 | a list of code lengths is accepted if and only if it satisfies Kraft's inequality |
| HuffmanCodes.SlotsDistinct | include/ssfn.h:519-522 | every symbol has a slot of its own within the value table |
| HuffmanCodes.PassedLimits | include/ssfn.h:572-580 | if no shorter code decodes, the lookahead has passed every limit so far |
| HuffmanCodes.DecodingInvertsEncoding | include/ssfn.h:572-598 | decoding the codes of a sequence of symbols gives exactly that sequence and consumes exactly those bits |
| HuffmanTables.FastTableStep | include/ssfn.h:523-529 | writing the entries of one symbol keeps the fast table right for all symbols so far |
| HuffmanTables.HuffmanTable.Build | include/ssfn.h:490-535 | succeeds exactly on accepted lists, and the tables are then those of the canonical code |
| HuffmanDecoders.SearchFinds | include/ssfn.h:572-584 | the search finds the symbol whose code comes next, or that there is none |
| HuffmanDecoders.FastAgreesWithSearch | include/ssfn.h:586-598 | for every 16 next bits a fast entry is what the search from length 1 finds, and a zero entry means that starting at 10 loses nothing; the slot is in range |
| HuffmanDecoders.SlowPath | include/ssfn.h:572-584 | decodes and consumes the next code of ten bits or more |
| HuffmanDecoders.HuffmanDecode | include/ssfn.h:586-598 | decodes and consumes the next code; -1 if and only if no code comes next |
| DeflateBlocks.CopyMatchRepeats | include/ssfn.h:661-668 | a match keeps the output and repeats it at its distance, overlapping or not |
| DeflateBlocks.RepetitionUnique | include/ssfn.h:661-668 | nothing else does |
| DeflateBlocks.DistanceOneRepeatsLast | include/ssfn.h:662-664 | at distance 1 the last byte is repeated |
| DeflateBlocks.ReadTokenOfEncoding | include/ssfn.h:637-655 | a literal or match is read back from its code and extra bits |
| DeflateBlocks.BlockInvertsEncoding | include/ssfn.h:633-670 | a block is read back as the expansion of its literals and matches, and exactly its bits are consumed |
| DeflateBlocks.LengthTable | include/ssfn.h:619-625 | each length symbol begins where the one before it ends, its number of extra bits grows with every fourth, and 258 has a symbol of its own |
| DeflateBlocks.DistanceTable | include/ssfn.h:627-631 | the same for distances, with every second |
| DeflateBlocks.LengthsCovered | include/ssfn.h:619-625 | every length from 3 to 258 has a symbol and extra bits |
| DeflateBlocks.DistancesCovered | include/ssfn.h:627-631 | every distance from 1 to 32768 has one |
| DeflateBlocks.ReservedSymbolsAccepted | include/ssfn.h:637-655 | a match is shorter than 3 bytes, and then empty, if and only if its symbol is 286 or 287, and has distance 0 if and only if its symbol is 30 or 31 |
| StoredBlocks.WordOfStream | include/ssfn.h:732-733 | LEN is the number whose bits are those of its two bytes in stream order |
| StoredBlocks.StoredInvertsEncoding | include/ssfn.h:718-742 | a stored block is read back, from any position within a byte |
| CodeTables.ReadLengthsOfEncoding | include/ssfn.h:692-711 | a list of code lengths is read back from its runs |
| CodeTables.HeaderInvertsEncoding | include/ssfn.h:672-716 | the codes of a dynamic block are read back |
| CodeTables.DezigzagOrder | include/ssfn.h:674 | the order of the code length code: repeats, zero, then from 8 outwards |
| CodeTables.FixedAccepted | include/ssfn.h:744-754 | the fixed codes are accepted |
| CodeTables.FixedCodes | include/ssfn.h:744-754 | they are, for each literal and length, the codes that section 3.2.6 of RFC 1951 lists |
| CodeTables.FixedDistanceCodes | include/ssfn.h:744-754 | and for each distance symbol its five bits |
| DeflateStreams.InflateInvertsDeflate | include/ssfn.h:756-775 | any stream of stored, fixed and dynamic blocks is read back as what its blocks stand for |
| DeflateStreams.LetterStream | include/ssfn.h:756-775 | the bytes 4b 04 00, whatever follows, are such a stream, which stands for the letter a |
| Inflaters.InflateEncoded | include/ssfn.h:756-788 | the decoder, run on bytes that hold a stream of blocks, gives what the blocks stand for |
| Inflaters.Inflater.CopyMatchBytes | include/ssfn.h:661-668 | both branches of the copy loop append the repetition; distance 0 passes over what the buffer holds |
| Inflaters.Inflater.ParseHuffmanBlock | include/ssfn.h:633-670 | appends exactly the expansion of the block, or refuses it |
| Inflaters.Inflater.ParseUncompressedBlock | include/ssfn.h:718-742 | skips to the next byte, checks the length against its complement and appends exactly LEN bytes |
| Inflaters.Inflater.ComputeHuffmanCodes | include/ssfn.h:672-716 | builds exactly the two codes that the header describes, or refuses it |
| Inflaters.Inflater.ParseZlib | include/ssfn.h:756-775 | appends what all blocks of the stream stand for, or refuses it |
| Crc32.TableIsEightSteps | gnu-efi/lib/crc.c:22-66 | every table entry is eight steps of the bitwise CRC |
| Crc32.CalculateCrc | gnu-efi/lib/crc.c:201-218 | the table form computes the bitwise CRC-32 of section 8 of RFC 1952 |
| Crc32.CheckValue | gnu-efi/lib/crc.c:201-218 | the CRC of the digits 1 to 9 is 0xcbf43926 |
| Crc32.CrcOfMessageWithCrc | gnu-efi/lib/crc.c:201-218 | a message with four bytes behind it has the CRC 0x2144df1c if and only if they are its own CRC, least significant byte first |
| Crc32.FoldInjective | gnu-efi/lib/crc.c:211-215 | equal bytes keep different states different |
| Crc32.FourBytesInjective | gnu-efi/lib/crc.c:211-215 | four different bytes lead to different states |
| Crc32.ChangeDetected | gnu-efi/lib/crc.c:201-218 | messages of equal length that differ only within four consecutive bytes have different CRCs |
| EfiTables.SetCrcAltSize | gnu-efi/lib/crc.c:94-116 | the CRC field becomes the CRC of the table with a zero field; other bytes stay |
| EfiTables.CheckCrcAltSize | gnu-efi/lib/crc.c:146-198 | accepts exactly a size in range and a right CRC, and restores the table |
| EfiTables.SetThenCheck | gnu-efi/lib/crc.c:94-198 | a table whose CRC was just set is accepted |
| Crc32.CrcDifference | gnu-efi/lib/crc.c:201-218 | by how much two CRCs differ depends on the difference of the messages only |
| EfiTables.CorruptionDetected | gnu-efi/lib/crc.c:146-198 | an accepted table changed within four consecutive bytes, all in the CRC field or all outside it, is no longer accepted |
| EfiTables.ChangeDecides | gnu-efi/lib/crc.c:146-198 | any change is missed if and only if the field changes by as much as the CRC of the rest |
| EfiTables.StraddlingChangeMissed | gnu-efi/lib/crc.c:146-198 | across the edge of the field there is a change within four bytes that is missed in every accepted table of 24 bytes |
| Glob.MatchSet | gnu-efi/lib/str.c:360-395 | a bracket set with chained ranges is matched exactly, also one that is never closed, where the matcher leaves it |
| Glob.RangePattern | gnu-efi/lib/str.c:360-395 | the pattern of a range matches exactly the strings of one character from its lower to its upper end |
| Glob.PlainSet | gnu-efi/lib/str.c:360-395 | a set without dashes stands for its characters |
| Glob.MetaMatch | gnu-efi/lib/str.c:325-409 | terminates and is true exactly if the string is in the language of the pattern, wherever the pattern is not read past its end |
| Glob.ClosedNeverRunsPast | gnu-efi/lib/str.c:364-394 | a pattern whose sets are all closed is never read past its end |

## Left out

- The 64-bit words of page table entries appear as records of flags and a frame number in memory; the laws that this rests on are proved on 64-bit words in `Paging.dfy`.
- Physical memory is total: every address of the 52-bit space holds a table-sized frame. The first bitmap, heap headers and heap payloads are kept apart from it, and the heap's pages are tied to it by `HeapBacking.Backed`.
- Heap memory has the granularity of headers: writes are those of header fields, and payload bytes are not stored. `free` of anything but a live payload is excluded.
- Addresses are natural numbers: wrap-around above 2^64, of heap addresses and of sizes close to 2^64 in `malloc` and `expand_heap`, is excluded.
- KernelMappings.InitVirtual: promises nothing for more than 2^35 pages of memory or a kernel that does not fit below 2 GiB, because the two mapped ranges would then meet.
- PhysicalInits.InitPhysical: the bitmap is written into memory once, as it is in the end, rather than bit by bit; the allocator keeps a copy of its own, which later writes to memory do not reach. The endless loop without a segment is a failed result.
- PageMapClones.CloneActivePageMap: the three nested loops are one method that calls itself for the next level; leaf tables are copied as a whole.
- EFI memory-map parsing, link symbols, the control register and TLB, permission bits and debug printing (the heap's debug printer allocates).
- `MaxFreePagesInARow` as a true maximum: it is set once and then only used as a guard.
- Inflaters.Inflater.ParseHuffmanBlock: `_ssfn__zexpand`, the one growth of the output buffer from 8 bytes to the size that its first bytes declare, is not modelled; the buffer has its final size, which is not 8, and output beyond it is refused.
- Inflaters.Inflater.ParseZlib: the stream starts at its first block; the gzip header in `ssfn_load` is skipped there.
- Glyph rasterising, blitting and kerning in `include/ssfn.h`.
- Glob.MetaMatch: promises nothing where the source reads past the end of a pattern, which happens only in a set that is never closed (`Glob.RunsPast`).
- Serial output, port I/O, interrupt setup, the renderer, the bootloader and gnu-efi's Boot Services wrappers: hardware or foreign calls.
- Linked lists, strings, number printing and device-path text: they would add only easy members.
