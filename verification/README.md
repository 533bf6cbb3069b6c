# KOS: a verified model of its memory management, network receive path and scheduler

KOS is a small x86-64 kernel in C. This project models the parts of it that hold state and do arithmetic, and proves what they keep over every run:

- **Physical pages** (`Bits`, `Bitmap`, `PmmSpec`, `PmmInitSpec`, `Pmm`, `PmmSmp`, `PmmSolo`): three zones with bitmaps and cached counters, first-fit allocation, initialisation from the memory map, and the lock protocol as steps of any number of CPUs, which without interference refines the sequential allocator.
- **Page tables** (`PageTables`, `VmmSpec`, `VmmFlat`, `VmmShare`, `VmmPages`, `VmmCost`, `VmmRuns`, `VmmBoot`, `VmmBootCost`, `VmmWords`, `Vmm`): a mutable four-level tree in physical frames with 4 KB and 2 MB leaves and kernel subtrees shared between address spaces, against a flat map from pages to entries, for any number of spaces at once. A ghost labelling of frames by owner and path carries the separation argument.
- **Kernel heap** (`SlabSpec`, `SlabRuns`, `SlabLimits`, `Slab`): free lists threaded through memory, as an ownership invariant.
- **Both clients on one memory** (`Memory`, `PowerOn`): what the page allocator proves is what the page tables and the heap need, and their footprints keep them apart in one physical memory, from the three initialisations on.
- **TCP receive path** (`TcpSpec`, `TcpTable`, `TcpProgress`, `Tcp`): one connection with its ring and wrapping counters, and the linked list of sockets.
- **Checksums, packets and ARP** (`ChecksumSpec`, `Arp`, `Wire`, `WireLayout`, `Net`, `EndToEnd`): one's complement arithmetic, three layers of headers built and parsed, and the composition of both with the socket list.
- **Run queue** (`SchedSpec`, `Sched`): the intrusive queue and its round-robin guarantee.

Each layer has the same form. A `...Spec` module gives the operations as functions on values, with the branches, constants, error results and word widths of the C code, and proves the laws. `VmmWords`, `TcpProgress` and `WireLayout` say what the stored words, the state changes and the bytes on the wire are in numbers, without the functions that compute them. A module with classes (`Bitmap`, `Pmm`, `Vmm`, `Slab`, `Tcp`, `Arp`, `Net`, `Sched`) has the fields, arrays, links and loops of the C code; each of its methods is proved to change the object's abstract value exactly as the function says. Machine words are natural numbers with explicit bit operations (`Bits`) and explicit wrap-around. Physical memory for page tables is a map from frame number to 512 entries, and heap memory a map from 16-byte granule to contents; what is not in a map is zero, and every theorem holds for arbitrary initial contents. A result that C reports as NULL or -1 is an `Option`, because physical address 0 is a valid translation.

## Where the code and its comments differ

The model follows the code.

- "Reserve first 16MB" (memory.c:168) reserves only frames of zone NORMAL, which usually lies above 4 GB: `PmmInitSpec.KernelIsReserved` says exactly when the comment holds, `PmmInitSpec.KernelFrameIsFree` gives an input for which it does not.
- `pmm_free_page` neither recognises the addresses that the allocator returns nor ever clears a used bit; applied to a free frame's number it inflates the counter (`PmmSpec.FreePageRecyclesNothing`).
- `vmm_map_page` takes a huge entry for a table (`VmmFlat.MapUnderHugeWrites`): the map is lost, or, if page tables lie in the mapped memory, which vmm_init makes possible, a table is overwritten (`VmmBoot.MapOverwritesTable`). And PT_NX in the flags ends up in the translated address (`VmmFlat.NoExecuteLeaks`).
- "Rollback on failure" (vmm.c:117) happens for a missing data page, not for a missing table: `VmmCost.FailureLeavesPages` gives the condition before the call, `VmmCost.FailedCallLeavesAPage` a call.
- `kmalloc` does not count its own header (`SlabLimits.FullUseStaysInside`), a double free is not noticed (`SlabLimits.FreeIsSound` says exactly which frees are sound), and freeing a large block may put somebody's live slot on a free list (`SlabLimits.LargeFreeIsHarmless` says exactly when).
- `tcp_connect` ignores the reply that RFC 9293 prescribes (`TcpSpec.ConformingReplyIsIgnored`), and `tcp_rx` verifies no checksum (`EndToEnd.SegmentDamageIsUnnoticed`). It compares ports only, so two hosts that use the same source port share one connection (`EndToEnd.SendersAreNotTold`); the prefix theorems are about the stream sent on a pair of ports.
- The "Completely Fair Scheduler" is round robin; a thread that blocks is dropped, and nothing puts it back (`SchedSpec.BlockedIsForgotten`).

## Model

| member | source | states |
|---|---|---|
| Bits.OrDisjoint | vmm.c:56 | The bitwise or of an aligned address and flags below its alignment is their sum: fields that do not overlap stay apart. |
| Bits.BitsDetermine | kernel.h:331-341 | Words with the same bits are equal, so the bit-by-bit definitions of and, or and not used throughout are the machine's. |
| Bitmap.Set | kernel.h:331-333 | After bitmap_set exactly the named bit has become set; every other bit of every word is as before. |
| Bitmap.Clear | kernel.h:335-337 | After bitmap_clear exactly the named bit has become clear. |
| Bitmap.Fill | memory.c:140 | memset with 0xFF sets every bit of the bitmap. |
| PmmSpec.CountClearTake | memory.c:229-232 | Setting a clear run of `count` bits lowers the number of clear bits by exactly `count`, so the counter stays right. |
| PmmSpec.FirstRunIsLeast | memory.c:219-242 | The scan returns the lowest clear run on its grid of starts (every bit, or every 512th), and fails only if there is none. |
| PmmSpec.AllocFromIsFirstFit | memory.c:209-246 | Complete first fit in spite of the counter shortcut: failure iff no zone tried has a run; otherwise the lowest run of the first zone (NORMAL, DMA32, DMA) that has one, and only that zone changes, by exactly those bits and that count. |
| PmmSpec.AllocFromHands | memory.c:209-287 | A granted block was free throughout, exactly its frames stop being free, and zones and counters stay consistent. |
| PmmSpec.AllocPageIsFresh | memory.c:181-207 | pmm_alloc_page fails iff no frame of any zone is free; otherwise its frame was free and is the only one taken. |
| PmmSpec.AllocPageCounts | memory.c:181-207 | It fails iff the counters sum to zero, and otherwise lowers the sum by one. |
| PmmSpec.ServeHands | memory.c:181-287 | The same for each of the three allocators, with the counters lowered by the size of the block. |
| PmmSpec.ServeIsFirstFit | memory.c:181-287 | Each of the three allocators fails iff the request is empty or no zone has a clear run of 1, count or 512 pages (the last on the 512 grid), and otherwise takes exactly the lowest such run of the first zone that has one. |
| PmmSpec.BlocksAreDisjoint | memory.c:181-287 | Over any mixture of the three allocators: blocks are pairwise disjoint, were free at the start and are used at the end, and the counters account for every frame. |
| PmmSpec.HugeBlockAligned | memory.c:248-287 | A huge block starts at a multiple of 512 frames from its zone's base; it is 2 MB aligned if the bases are. |
| PmmSpec.FreePageRecyclesNothing | memory.c:289-319 | pmm_free_page never clears a used bit. It leaves the allocator consistent iff the page number that it computes is not a free frame, and then it changes nothing. |
| PmmSpec.FreeOfAllocatedPageIsIgnored | memory.c:292-296 | Given the higher-half address that the allocator returned, it finds no zone: no alloc/free round trip holds. |
| PmmInitSpec.ExtendZoneIsHull | memory.c:121-128 | The comparisons on the multiplied, wrapping bounds compute the minimum and maximum, the all-ones start value included. |
| PmmInitSpec.RangesAreTight | memory.c:95-129 | A zone spans exactly from the lowest to the highest usable frame of the entries assigned to it. |
| PmmInitSpec.RangesAreOrdered | memory.c:109-127 | With disjoint available entries the zone ranges do not overlap and lie in the order DMA, DMA32, NORMAL. |
| PmmInitSpec.MarkAllIsExact | memory.c:143-166 | The second pass clears exactly the bits of frames that some entry of the zone covers, and the counter equals the clear bits. |
| PmmInitSpec.KernelFramesAreFree | memory.c:168-174 | Every frame of zone NORMAL below 16 MB is free when the reservation loop reaches it, so its decrement is always earned. |
| PmmInitSpec.InitZoneIsExact | memory.c:95-174 | After initialisation one zone's counter equals its clear bits, and its free frames are the granted ones. |
| PmmInitSpec.InitIsExact | memory.c:63-174 | For a memory map with disjoint available entries: zones disjoint and ordered, each counter exact, and a frame free iff it lies wholly in an available entry at or above 1 MB and the reservation loop (which covers zone NORMAL only) does not take it. |
| PmmInitSpec.FreeByAddress | memory.c:95-174 | The same by byte address: which zone an entry belongs to by its end, 1 MB, 16 MB and 4 GB as numbers. |
| PmmInitSpec.TotalsAreExact | memory.c:128-173 | A zone's total is the whole pages of its entries, and its free count is the total less, in the third zone, its pages below 16 MB. |
| PmmInitSpec.UsedIsAccounted | memory.c:328-340 | From pmm_init on, over any run of requests, pages of the memory map that are not free are those of the blocks handed out and those reserved. |
| PmmInitSpec.KernelIsReserved | memory.c:168-174 | The first 16 MB are reserved, as the comment says, iff every available entry that begins below 16 MB ends above 4 GB. |
| PmmInitSpec.KernelFrameIsFree | memory.c:168-174 | An input for which they are not: with one entry of 15 MB from 1 MB on, the kernel's first frame is free. |
| Pmm.FindRun | memory.c:219-242 | The consecutive-counter loop over the bitmap finds the first clear run. |
| Pmm.MemoryZone.Widen | memory.c:121-128 | The zone record after one entry is the hull of the old range and the entry. |
| Pmm.MemoryZone.NewBitmap | memory.c:136-141 | A fresh bitmap of sufficient length with every frame of the range used. |
| Pmm.MemoryZone.MarkFramesFree | memory.c:153-165 | The loop over one entry's pages clears and counts each page that lies in the zone. |
| Pmm.MemoryZone.Reserve | memory.c:170-173 | The bit is set and the counter decremented unless it is zero. |
| Pmm.MemoryZone.TakePage | memory.c:191-203 | The scan of pmm_alloc_page on one zone, in place: the first clear bit is set and the counter lowered, or nothing changes. |
| Pmm.MemoryZone.TakePages | memory.c:219-243 | The scan of pmm_alloc_pages on one zone: the first run is set and counted, or nothing changes. |
| Pmm.MemoryZone.BlockIsFree | memory.c:259-270 | The inner loop answers whether all 512 bits are clear. |
| Pmm.MemoryZone.FindHuge | memory.c:255-283 | The strided scan finds the first clear block of 512 on its grid. |
| Pmm.MemoryZone.TakeHuge | memory.c:251-284 | The body of pmm_alloc_huge_page on one zone, in place. |
| Pmm.PhysicalMemory.Init | memory.c:82-174 | pmm_init on the three zone records, bitmaps included, equals InitZones of the memory map. |
| Pmm.PhysicalMemory.ServeRequest | memory.c:181-287 | The zone loop in place equals AllocFrom: zones, bitmaps, counters and result. |
| Pmm.PhysicalMemory.AllocPage | memory.c:181-207 | pmm_alloc_page as a request for one page. |
| Pmm.PhysicalMemory.AllocPages | memory.c:209-246 | pmm_alloc_pages, counts 0 and 1 included. |
| Pmm.PhysicalMemory.AllocHugePage | memory.c:248-287 | pmm_alloc_huge_page. |
| Pmm.PhysicalMemory.GetFree | memory.c:328-334 | The loop over the counters returns the free memory in bytes. |
| PmmSmp.LowCounterMeansNoRun | memory.c:186 | Whatever other CPUs are doing, a counter read below `count` without the lock means that no clear run of `count` exists. |
| PmmSmp.StepKeepsInv | memory.c:181-246 | Every step of every CPU (counter read, test-and-set, scan of one bit, set of one bit, decrement, release) keeps the invariant of locks, counters, bitmaps and handed-out blocks. |
| PmmSmp.RunKeepsInv | memory.c:181-246 | So does every interleaving of any number of CPUs. |
| PmmSmp.MutualExclusion | kernel.h:348-356 | In every interleaving at most one CPU is inside the lock of a zone. |
| PmmSmp.NoFrameTwice | memory.c:181-246 | In every interleaving two finished calls never hold the same frame. |
| PmmSmp.CounterNeverUnderflows | memory.c:196 | A counter is never below the number of clear bits, and equals it whenever the lock is free. |
| PmmSmp.NullMeansExhausted | memory.c:186-206 | A call that returned NULL saw every zone without a run of its size, for one page every zone full, in spite of the unlocked read. |
| PmmSolo.StepAdvances | memory.c:181-246 | Each step of an undisturbed CPU brings its call nearer to its end and keeps what the call will come to. |
| PmmSolo.PlanIsAllocFrom | memory.c:209-246 | The concurrent model's first fit over shared zones is AllocFrom, with the result that the call puts on record. |
| PmmSolo.LoneCallIsFirstFit | memory.c:181-246 | With all locks free and no other CPU stepping, a call ends, and leaves bitmaps, counters, locks and result exactly as the sequential pmm_alloc_pages. |
| PageTables.EntryFields | vmm.c:47-59 | An entry built from a frame and flags below 4096 gives back frame, PRESENT and HUGE. |
| VmmWords.PathBits | vmm.c:4-7 | The four indices are the 9-bit fields of the address at bits 39, 30, 21 and 12, bit by bit. |
| VmmWords.SmallWordBits | vmm.c:82 | For any flags, bit j of the word that vmm_map_page stores is set iff it is set in the flags or, from 12 up, in the address. |
| VmmWords.HugeWordBits | vmm.c:104 | The same for vmm_map_huge_page with bit 7 and the address from bit 21 up. |
| VmmWords.TranslationBits | vmm.c:188-198 | Bit j of a translated address is that of the virtual address below bit 12 (21 under a huge page) and that of the leaf from there on. |
| VmmWords.NewTableWord | vmm.c:47-59 | A new table is all zero, its parent's word is its address with PRESENT and WRITABLE, and no other word of memory changes. |
| VmmWords.MappedPageIs | vmm.c:61-86 | With flags below 4096 the leaf of a mapped page is, in every space that sees it, the page address plus the flags. |
| VmmWords.MappedRegionIs | vmm.c:88-108 | The same for a 2 MB region, with bit 7 added if it was not set. |
| VmmWords.MappedRangeTranslates | vmm.c:110-129 | Each address of a range that vmm_map_pages has mapped translates to its offset in the frame of its page. |
| VmmWords.UnmapClearsWord | vmm.c:131-153 | vmm_unmap_page clears one word, of the last table or of the directory, or changes nothing. |
| VmmWords.NewSpaceWords | vmm.c:155-172 | The words of a new top-level table: itself at 510, the kernel's present words from 256 up, zero elsewhere. |
| PageTables.WalkLabels | vmm.c:178-194 | A walk from any root meets only tables labelled with that path and with an owner that is the root or, in shared upper slots, the kernel: tables are never aliased otherwise. |
| PageTables.WalksMeetInPd | vmm.c:178-188 | Two walks reach the same page directory iff they share the top-level slot and the path. |
| PageTables.PutLeaf | vmm.c:82 | Writing a page-table entry changes exactly the walks that end at it. |
| PageTables.PutHuge | vmm.c:99-104 | Writing a huge or empty directory entry changes exactly the walks through it. |
| VmmSpec.GetOrCreateKeepsSound | vmm.c:47-59 | Creating a table keeps the forest of tables well formed and its frames taken from the allocator, also when allocation fails. |
| VmmSpec.GetOrCreateKeepsWalk | vmm.c:47-59 | and changes no translation of any space. |
| VmmSpec.GetOrCreateLinks | vmm.c:47-59 | The slot leads to the returned table, at the cost of one frame iff it was absent; NULL iff it was absent and no frame is free. |
| VmmSpec.EnsurePdKeepsWalk | vmm.c:67-71 | The first two levels, created in turn with a failure possible between them, change no translation. |
| VmmSpec.EnsurePtKeepsSound | vmm.c:67-74 | All three levels keep the invariant. |
| VmmFlat.MapPageEffect | vmm.c:61-86 | A successful vmm_map_page changes the translation of exactly the named page, in exactly the spaces that share its top-level slot; a failed one changes none. |
| VmmFlat.MapPageSucceeds | vmm.c:61-86 | It succeeds iff the allocator has as many frames as there are tables missing on the path, and uses exactly that many. |
| VmmFlat.MapHugeEffect | vmm.c:88-108 | A successful vmm_map_huge_page changes exactly the 512 pages of the region, whatever was there; a failed one none. |
| VmmFlat.UnmapEffect | vmm.c:131-153 | vmm_unmap_page removes the named page, or the whole huge page that covers it, and nothing else. |
| VmmFlat.SmallEntryTranslates | vmm.c:82 | The entry translates to the given frame iff the flags have PRESENT and their bits from 12 up are bits of the address already. |
| VmmFlat.HugeEntryTranslates | vmm.c:104 | The same for a 2 MB entry with the bits from 21 up. |
| VmmFlat.NoExecuteLeaks | vmm.c:198 | PT_NX in the flags spoils the translation of every physical address below 2^63, because PAGE_MASK keeps bit 63. |
| VmmFlat.MapUnderHugeWrites | vmm.c:48-49 | Under a huge page vmm_map_page reports success and writes one word into the first frame of the mapped memory, whatever that frame holds, and nothing else. |
| VmmFlat.MapUnderHugeIsLost | vmm.c:48-49 | If that frame is no page table, no translation of any space changes. |
| VmmFlat.MapUnderHugeRemapsAnother | vmm.c:48-82 | If it is a last-level table, exactly the pages of that table with the same last index are remapped, in every space. |
| VmmFlat.MapUnderHugeBreaksTree | vmm.c:48-82 | If it is a table of an upper level, a data frame takes the place of a table and the tree invariant is gone. |
| VmmFlat.MapTakesEffectUnlessHuge | vmm.c:61-86 | A successful map of a present entry takes effect iff no huge page covers the address, as long as that huge page does not begin with a table of the address's own path. |
| VmmPages.PathsNamePages | vmm.c:4-7 | The four indices are equal iff bits 12 to 47 of the addresses are. |
| VmmPages.PagesAreDistinct | vmm.c:124 | Up to 2^36 consecutive pages have pairwise distinct paths, across every carry between the index fields. |
| VmmPages.MapPagesEffect | vmm.c:110-129 | vmm_map_pages as any space sees it: on success each page has its own fresh frame in the spaces that share its slot; after a missing data page none of the range is mapped; after a missing table the pages before it stay; in every case every other page of every space is as before and the invariant holds. |
| VmmPages.RollBack | vmm.c:115-121 | After a missing data page the pages done so far are unmapped in every space that sees them, and every other page of every space is as before the call. |
| VmmCost.MapPagesIsDecided | vmm.c:110-129 | Before the call, the free frames and the cost of each prefix of the range (its pages plus the distinct tables absent on their paths) decide the outcome and after how many pages: success iff the whole cost is covered, no data page at j iff the cost of j pages is exactly what is free, no table at j iff what is free lies strictly between the costs of j and j + 1 pages. |
| VmmCost.FailureLeavesPages | vmm.c:115-126 | A call that must fail leaves a page mapped that was not mapped before iff the frames run out at a table of a later page. |
| VmmCost.FailedCallLeavesAPage | vmm.c:115-126 | Such a call: two pages at 0x1FF000 with five free frames. It reports failure and the first page stays mapped. |
| VmmPages.UnmapAllEffect | vmm.c:118-120 | Unmapping pages one after the other removes exactly those, in exactly the spaces that share their slots. |
| VmmShare.SharingIsStatic | vmm.c:155-172 | Between two existing spaces sharing of a top-level slot neither begins nor ends, since present top-level entries stay and new ones lead to fresh tables. |
| VmmShare.MapPageSeen | vmm.c:61-86 | vmm_map_page as any space sees it, by a condition before the call: the named page if the space is the same or shares the slot, and nothing otherwise. |
| VmmShare.MapHugeSeen | vmm.c:88-108 | The same for vmm_map_huge_page and the 512 pages of the region. |
| VmmShare.UnmapSeen | vmm.c:131-153 | The same for vmm_unmap_page. |
| VmmRuns.CreateSpaceEffect | vmm.c:155-172 | A new space translates its upper half as the kernel does and nothing in its lower half, shares the kernel's present slots, and disturbs no other space. |
| VmmRuns.RunKeepsSound | vmm.c:47-172 | Any legal run (existing spaces, outside slot 510, no 4 KB page under a huge one) of map, huge map, range map, unmap and space creation, with allocation failing anywhere, keeps the tree invariant. |
| VmmRuns.RunIsFlat | vmm.c:47-199 | Over any such run, in any space, every page translates as a flat partial map updated by the operations on the spaces that share the slot at that moment, range maps and their rollbacks included. |
| VmmRuns.LowerHalvesAreIsolated | vmm.c:155-172 | In its lower half each space is the flat map of its own operations, whatever the other spaces do in between. |
| VmmRuns.SharersActAlike | vmm.c:155-172 | In any slot each space is the flat map of the operations on the spaces that shared the slot with it at the start. |
| VmmRuns.SharingNeverChanges | vmm.c:155-172 | Over any run on any spaces, two spaces see each other under a slot at the end iff they did at the start. |
| VmmRuns.SharedSlotsStayShared | vmm.c:155-172 | Spaces that share a top-level slot share it for ever: after any run of operations on any spaces a page under it translates alike in both. |
| VmmBoot.BootIsSound | vmm.c:13-45 | After vmm_init the invariant holds even if some of its unchecked map calls failed. |
| VmmBootCost.BootSucceeds | vmm.c:13-38 | All maps of vmm_init succeed iff the free frames cover the root and the tables of the three phases: 1 + 2 + 3 plus, for m kernel pages, m / 512, m / 512^2 and m / 512^3 rounded up. |
| VmmBootCost.BootMapsAll | vmm.c:13-38 | With that much free memory identity, kernel and VGA mappings are all in place at the end. |
| VmmBoot.MapOverwritesTable | vmm.c:19-22 | After boot the identity map covers the page tables: if a table starts a 2 MB region below 1 GB, vmm_map_page of page i of that region writes entry i of that table. |
| VmmBoot.BootMapsIdentity | vmm.c:19-22 | If all maps succeeded, every address below 1 GB translates to itself after all three phases. |
| VmmBoot.BootMapsKernel | vmm.c:24-31 | Every offset below the kernel's size translates to 0x100000 plus the offset. |
| VmmBoot.BootMapsVga | vmm.c:33-35 | The VGA page translates to 0xB8000. |
| VmmWords.BootKernelWords | vmm.c:24-31 | If all maps succeeded, page i of the kernel image is mapped by the word 0x100000 + 4096 i + 0x103: present, writable, global. |
| VmmWords.BootVgaWord | vmm.c:33-35 | The VGA page is mapped by the word 0xB8103. |
| VmmWords.BootIdentityWords | vmm.c:19-22 | Every address below 1 GB is mapped by a huge page with flags 0x83. |
| VmmWords.BootMapsNothingElse | vmm.c:13-35 | Outside these three ranges (and slot 510) nothing is mapped. |
| VmmWords.BootRecursiveWord | vmm.c:37-39 | Entry 510 of the root is the root with PRESENT and WRITABLE. |
| Vmm.VirtualMemory.GetOrCreateTable | vmm.c:47-59 | The in-place method equals GetOrCreate on memory and allocator. |
| Vmm.VirtualMemory.MapPage | vmm.c:61-86 | The in-place method equals MapPage at the address's indices, the intermediate clearing included. |
| Vmm.VirtualMemory.MapHugePage | vmm.c:88-108 | The in-place method equals MapHuge. |
| Vmm.VirtualMemory.UnmapPage | vmm.c:131-153 | The in-place method equals Unmap. |
| Vmm.VirtualMemory.GetPhys | vmm.c:178-199 | The method with its early returns equals GetPhys. |
| Vmm.VirtualMemory.MapPages | vmm.c:110-129 | The loop with its rollback equals MapPages over the range's paths. |
| Vmm.VirtualMemory.CreateAddressSpace | vmm.c:155-172 | The in-place method equals CreateSpace; the copy loop skips absent entries and the recursive entry comes last. |
| Vmm.VirtualMemory.Init | vmm.c:13-38 | vmm_init in place equals Boot: allocation, three mapping loops, recursive entry. |
| Memory.ApplyTakes | vmm.c:47-172 | A page-table operation takes only free frames, and only those become tables. |
| Memory.PageIsFresh | kmalloc.c:53-54 | The zones give kmalloc only pages that neither the heap nor the page tables use. |
| Memory.LargeRequest | kmalloc.c:51-60 | A request above 2048 bytes asks the zones for the least number of pages that holds it; all of these were free and none is afterwards, or no zone has such a run. |
| Memory.SmallRequest | kmalloc.c:61-85 | A smaller one asks for one page iff the free list of its class is empty. |
| Memory.StepKeepsInv | kmalloc.c:47-117 | What each client does to its own reading of memory keeps both structures sound and their frames disjoint. |
| Memory.ApplyWrites | vmm.c:47-172 | A page-table operation writes only to frames that are page tables afterwards. |
| Memory.HeapWrites | kmalloc.c:47-162 | An event of the heap, client writes included, writes only to pages that the heap owns afterwards. |
| Memory.AliasedStepKeepsInv | kmalloc.c:47-162 | On one physical memory, where a frame written by one client may read as anything for the other, every step keeps both structures sound and disjoint. |
| Memory.HeapKeepsTranslations | kmalloc.c:47-162 | and nothing that the heap or its clients do changes a translation. |
| Memory.RunKeepsInv | kmalloc.c:47-162 | Over every run of page-table operations, kmalloc, kfree and client writes on one memory and one allocator, tables stay a tree, the heap stays sound, and no heap page is a page-table frame. |
| PowerOn.StartIsSound | main.c:41-43 | With any memory map with disjoint available entries and any contents of memory, pmm_init, vmm_init and kmalloc_init in turn establish that invariant, whichever of the maps failed. |
| PowerOn.SystemStaysSound | kmalloc.c:25-162 | So from power-on, over every such run, tables stay a tree, the heap stays sound, and the two never meet. |
| SlabSpec.IndexOfClass | kmalloc.c:40-45 | The size stored in a header selects its own class again. |
| SlabSpec.SlotsApart | kmalloc.c:87-102 | Slots of a class do not overlap. |
| SlabSpec.SlotInPage | kmalloc.c:88 | A slot lies within one page. |
| SlabSpec.SlotIndex | kmalloc.c:88-102 | Every slot of a page is one of the PAGE_SIZE / size that the loop threads. |
| SlabSpec.PageSplitsExactly | kmalloc.c:88-102 | Every granule of a page lies in exactly one slot: the page splits without remainder. |
| SlabRuns.PopKeeps | kmalloc.c:68-75 | Taking the head of a class's list moves that slot from free to live and keeps list, headers and counters. |
| SlabRuns.PushKeeps | kmalloc.c:156-159 | Putting a live slot back moves it from live to the head of the list. |
| SlabRuns.ThreadReads | kmalloc.c:90-102 | The threading loop writes a header into each slot done so far, linking it to the next, the last to NULL, and nothing elsewhere. |
| SlabRuns.SplitKeeps | kmalloc.c:87-104 | After splitting, the class's list is exactly the slots of the new page. |
| SlabRuns.SlotsAreDisjoint | kmalloc.c:87-104 | In a sound heap slots of all classes are disjoint. |
| SlabRuns.AllocKeepsInv | kmalloc.c:47-117 | kmalloc keeps the heap sound, whether it pops, splits a page, takes large pages, or fails. |
| SlabRuns.FreeKeepsInv | kmalloc.c:127-162 | kfree of a live slot finds its class by the header and puts it on that list. |
| SlabRuns.WriteKeepsInv | kmalloc.c:77 | A client write behind the header of a live slot touches no header of any class. |
| SlabRuns.RunKeepsInv | kmalloc.c:47-162 | Every run of possible events keeps the heap sound. |
| SlabRuns.HeapStaysSound | kmalloc.c:25-162 | From kmalloc_init on, over every run: each slot of each slab page is on its class's list once or live, lists end, live headers are intact, and allocations - frees equals the live count. |
| SlabLimits.AllocHandsOutFreeSlot | kmalloc.c:68-116 | A small request gets a slot of its class that was not live; NULL iff it is empty or there is neither a free slot nor a page. |
| SlabLimits.LargeBlockIsFresh | kmalloc.c:51-60 | A request above 2048 bytes is refused iff no pages are granted; otherwise each of its bytes is zero and in a page that was nobody's and now is taken, every page taken holds a byte of it, and the rest of memory is as before. |
| SlabLimits.AllocMarksHeader | kmalloc.c:68-77 | The slot handed out carries 0xDEADBEEF and its slot size; no other granule changes. |
| SlabLimits.AllocIsCounted | kmalloc.c:68-72 | The allocations counter of a class counts the slots handed out of it, and nothing else moves it. |
| SlabLimits.FreeIsCounted | kmalloc.c:156-159 | The frees counter likewise. |
| SlabLimits.FreeChecksHeader | kmalloc.c:127-147 | kfree does something iff the sixteen bytes before the pointer have the magic number and a size of at most 2048. |
| SlabLimits.FreedSlotComesBack | kmalloc.c:156-158 | The slot freed last is the next one handed out in its class. |
| SlabLimits.FullUseStaysInside | kmalloc.c:42-77 | A client that uses all the bytes it asked for stays in its slot iff request + 16 fits the class; otherwise it ends on the next slot's header, always so in class 16. |
| SlabLimits.FreeIsSound | kmalloc.c:127-162 | kfree of any slot of a sound heap leaves it sound iff the slot is live or its header does not look like a live one; every other free, whenever it comes and wherever on the list the slot is, leaves a heap that no bookkeeping makes sound. |
| SlabLimits.FreedSlotStillLooksLive | kmalloc.c:156-158 | A freed slot keeps the header of a live one, so that freeing it again is such a free. |
| SlabLimits.DoubleFreeMakesCycle | kmalloc.c:132-158 | At once after the first free, the slot becomes its own successor. |
| SlabLimits.DoubleFreeHandsOutTwice | kmalloc.c:68-77 | After that two requests of the class get the same slot. |
| SlabLimits.LargeFreeIsHarmless | kmalloc.c:130-138 | kfree of a large block leaves the heap sound iff the granule before the block does not carry the magic number with a small size; then it changes nothing. |
| SlabLimits.LargeFreeHijacks | kmalloc.c:130-158 | If the last 16-byte slot of the page before is live, freeing the large block hands that slot out again. |
| Slab.SlabHeap.SizeToIndex | kmalloc.c:40-45 | The loop finds the smallest class that is as large as the request. |
| Slab.SlabHeap.SplitPage | kmalloc.c:87-104 | The splitting loop in place equals Split. |
| Slab.SlabHeap.KMalloc | kmalloc.c:47-117 | kmalloc in place equals KMalloc on memory, caches and result. |
| Slab.SlabHeap.KFree | kmalloc.c:127-162 | kfree in place equals KFree. |
| Slab.SlabHeap.Allocate | kmalloc.c:47-117 | kmalloc on a sound heap leaves a sound heap. |
| TcpSpec.RunKeepsRing | tcp.c:256-329 | On a spawned socket, over any segments, reads and closes, the ring between the counters holds exactly the accepted unread bytes and rcv_nxt counts them, past any number of 32-bit wraps. |
| TcpSpec.CountersAreExact | tcp.c:263-276 | rx_tail - rx_head and the free space computed in 32 bits are the true ones, 0 to 65536; rcv_nxt is the peer's number + 1 + accepted bytes, plus one after a FIN, and at most one FIN counts. |
| TcpSpec.TakenIsPrefix | tcp.c:260-279 | The accepted bytes are a prefix of the peer's stream. |
| TcpSpec.DeliveryIsPrefix | tcp.c:256-329 | What tcp_recv returned is a prefix of the peer's stream under loss, repetition, reordering, overlap, truncation and early FIN. |
| TcpSpec.InOrderSegmentIsDelivered | tcp.c:260-328 | Progress: on an empty ring the next in-order segment comes back in full. |
| TcpProgress.RxMoves | tcp.c:218-298 | The whole transition relation of tcp_rx, by FIN, SYN and ACK as bits 0, 1 and 4: for each state exactly when a segment leaves a socket in it. |
| TcpProgress.RxNumbers | tcp.c:239-298 | What tcp_rx does to snd_una, snd_nxt, the read counter, and outside ESTABLISHED to ring and rcv_nxt. |
| TcpProgress.CloseMoves | tcp.c:331-351 | tcp_close by state, with the sequence number of its FIN. |
| TcpProgress.TxAdvances | tcp.c:179-189 | snd_nxt advances by one for a SYN without ACK, one for a FIN, and the data's length. |
| TcpProgress.SegmentAdds | tcp.c:260-276 | A segment adds payload[..min(length, 65536 - unread)] if the connection is established and the number is rcv_nxt, and otherwise nothing. |
| TcpProgress.ReadGives | tcp.c:309-329 | A read of len returns the next min(len, unread) bytes in ESTABLISHED and CLOSE_WAIT, and nothing elsewhere. |
| TcpProgress.HandshakeOpens | tcp.c:250-254 | A spawned socket is established by the first segment iff it has ACK. |
| TcpProgress.FirstDataIsRead | tcp.c:250-329 | After the ACK the first data segment is read back up to the length asked for. |
| TcpProgress.StreamArrives | tcp.c:250-329 | Progress without end: a stream sent in sequence, cut in any way and of any length, is read back whole, past any number of 32-bit wraps. |
| TcpProgress.FinEndsStream | tcp.c:282-328 | A FIN leads to CLOSE_WAIT, where nothing more is accepted and what was accepted stays readable. |
| TcpProgress.AcksAreExact | tcp.c:256-288 | What tcp_rx answers on a spawned connection, over any run: one bare ACK for data in order and one for a FIN, each acknowledging exactly what has been accepted by then. |
| TcpProgress.FarewellIs | tcp.c:331-343 | tcp_close sends FIN and ACK with the connection's numbers, in ESTABLISHED and CLOSE_WAIT only. |
| TcpProgress.AnswersAre | tcp.c:209-237 | A SYN at a listener with memory is answered by a SYN-ACK to the peer's port and number plus one; no socket, no answer. |
| TcpSpec.ConnectAcceptsOnlyUnadvancedAck | tcp.c:239-247 | The connection is established iff a SYN-ACK acknowledges the SYN's own sequence number. |
| TcpProgress.ConnectNumbers | tcp.c:134-139 | tcp_connect sends its SYN with the initial number plus one and continues with plus two. |
| TcpProgress.ConnectAnswers | tcp.c:239-247 | An accepted SYN-ACK is answered by an ACK of its number plus one, any other by nothing. |
| TcpSpec.ConformingReplyIsIgnored | tcp.c:136-181 | So the reply that acknowledges the SYN as RFC 9293 prescribes is ignored: snd_nxt has been advanced twice. |
| TcpTable.PairFindsItsSocket | tcp.c:196-207 | A segment for an existing pair of ports finds that socket, not the listener. |
| TcpTable.CleanupIsFilter | tcp.c:367-383 | tcp_cleanup keeps exactly the sockets that are not CLOSED, in order. |
| TcpTable.RunKeepsTable | tcp.c:192-383 | Over every run at most one connection per port pair, each before its listener. |
| TcpTable.DeliverIsDemultiplexed | tcp.c:192-299 | tcp_rx changes the connection of the segment's port pair as Rx says, and no other connection. |
| TcpTable.SynSpawnsConnection | tcp.c:219-236 | A SYN at the listener creates the connection of its pair, expecting the peer's first byte. |
| TcpProgress.FindIsFirst | tcp.c:196-207 | The socket found is the first with the segment's ports or listening on its destination port. |
| TcpProgress.DeliverAdds | tcp.c:209-237 | A socket is added, in front and with these field values, iff a SYN finds a listener and memory; otherwise at most the socket found changes. |
| TcpProgress.TimeWaitExpires | tcp.c:353-365 | TIME_WAIT lasts timer ticks and ends at the next one; the timer touches no other socket. |
| TcpProgress.ConversationWorks | tcp.c:192-329 | On any list: SYN at a listener, ACK, first data, and the user of the new socket reads the data. |
| TcpTable.CleanedIsGone | tcp.c:372-377 | A closed connection does not survive tcp_cleanup. |
| TcpTable.ConnectionRunsAlone | tcp.c:192-383 | Inside the list a surviving connection goes through exactly the run of its own events. |
| TcpTable.StackDeliversPrefix | tcp.c:192-383 | With many connections, timers and cleanups interleaved, each user reads a prefix of its own peer's stream. |
| Tcp.Socket.TakeData | tcp.c:260-279 | The in-order branch in place: truncation, ring copy in one or two pieces, both counters. |
| Tcp.Socket.WriteRing | tcp.c:266-273 | The two memcpy branches equal a ring write. |
| Tcp.Socket.ReadRing | tcp.c:318-325 | The two memcpy branches of tcp_recv equal a ring read. |
| Tcp.Socket.Rx | tcp.c:239-298 | The state switch on one socket in place equals Rx, and the segments it gives to tcp_tx equal Replies. |
| Tcp.Socket.Recv | tcp.c:309-329 | tcp_recv in place equals Recv, its error result included. |
| Tcp.Socket.Close | tcp.c:331-351 | tcp_close in place equals Close, and what it sends equals Farewell. |
| Tcp.SocketList.Find | tcp.c:196-207 | The search loop over the linked list finds the first match. |
| Tcp.SocketList.Rx | tcp.c:192-299 | tcp_rx on the linked list equals Deliver on its contents, a new socket at the front included, and sends what Answers says. |
| Tcp.SocketList.TimerTick | tcp.c:353-365 | tcp_timer_tick on the linked list equals Tick. |
| Tcp.SocketList.Cleanup | tcp.c:367-383 | The unlinking loop on the linked list equals the filter. |
| ChecksumSpec.FoldIsOnesSum | ip.c:21-23 | The folding loop computes the residue modulo 0xFFFF, with 0xFFFF instead of 0 for nonzero sums. |
| ChecksumSpec.StoredChecksumIsInternetChecksum | ip.c:11-25 | The little-endian sum, stored unswapped, is the network-order checksum of RFC 1071 for every length and content (byte-order independence, section 2(B)). |
| ChecksumSpec.SumLEConcat | tcp.c:23-42 | Parts of even length can be summed one after the other. |
| ChecksumSpec.SumLEBound | ip.c:14-20 | n words sum to at most n times 0xFFFF. |
| ChecksumSpec.StoredChecksumVerifies | ip.c:40-45 | A packet with the checksum of its zeroed self stored in place always verifies. |
| ChecksumSpec.SingleWordErrors | ip.c:87-92 | Replacing one aligned word of a verifying packet goes unnoticed iff the word is the same or is exchanged between 0x0000 and 0xFFFF (the latter direction with a nonzero rest). |
| Arp.RunRefines | network.c:76-91 | After any run of arp_add the arrays hold exactly the first 256 distinct addresses, in order, each with its latest hardware address. |
| Arp.RunIsBoundedMap | network.c:67-91 | arp_lookup then returns the latest hardware address for those and nothing for any other; no address is stored twice. |
| Arp.ArpCache.Find | network.c:67-74 | The search loop equals Lookup. |
| Arp.ArpCache.Insert | network.c:76-91 | arp_add on the parallel arrays equals Add: overwrite, append, or ignore when full. |
| Wire.Swap32IsShifts | kernel.h:321-323 | Swapping the halves and the bytes in them is bswap32's shifts and masks. |
| WireLayout.Net16IsBig | kernel.h:317-326 | A 16-bit field in network order is its high byte and then its low byte. |
| WireLayout.Net32IsBig | kernel.h:321-328 | A 32-bit field likewise, most significant byte first. |
| Wire.Field16 | kernel.h:317-326 | A 16-bit field stored through htons is read back through ntohs, whatever surrounds it. |
| Wire.Field32 | kernel.h:321-328 | The same for htonl and ntohl. |
| Wire.TcpPacketVerifies | tcp.c:152-163 | Pseudo header and packet as tcp_tx builds them sum to 0xFFFF. |
| WireLayout.PseudoHeaderLayout | tcp.c:9-21 | The pseudo header by offset: source at 0, destination at 4, zero at 8, 6 at 9, length at 10, big-endian (section 3.1 of RFC 9293). |
| WireLayout.TcpChecksumField | tcp.c:23-52 | The checksum field of a segment is the Internet checksum of any twelve bytes laid out so, the header with a zero field, and the payload. |
| WireLayout.TcpHeaderLayout | tcp.c:152-160 | The TCP header by offset; byte 12 is 5, as the code has it, not shifted. |
| WireLayout.IpHeaderLayout | ip.c:33-42 | The IP header by offset: version and length, total length, identification, TTL 64, protocol, addresses. |
| WireLayout.IpChecksumField | ip.c:40-45 | Its checksum field is the Internet checksum of the twenty bytes with a zero field. |
| WireLayout.UdpLayout | network.c:150-164 | The UDP header by offset, its checksum zero. |
| WireLayout.EchoReplyLayout | network.c:113-137 | The echo reply by offset, and its checksum field as the Internet checksum of the packet. |
| WireLayout.FrameLayout | ip.c:66-76 | Destination, source, 0x0800, and the packet. |
| Wire.EchoReplyVerifies | network.c:129-137 | An echo reply sums to 0xFFFF. |
| Wire.TcpInReadsPacket | tcp.c:143-216 | The header fields and payload that tcp_rx reads are those that tcp_tx wrote. |
| Wire.PacketIsAccepted | ip.c:27-118 | A packet as ip_send builds it passes every test of ip_rx iff the receiver is its destination or it is broadcast, and its data comes out whole. |
| Wire.FrameIsTransparent | network.c:20-35 | network_rx hands the framed packet to ip_rx unchanged. |
| Wire.SentSegmentArrives | ip.c:27-118 | A frame leaves iff the next hop is in the ARP cache, fits 16 bits, and delivers exactly the segment (ports, numbers, flags, payload up to 65481 bytes) to its destination and nothing elsewhere. |
| WireLayout.Routing | ip.c:47-81 | By the mask 0xFFFFFF00: a frame leaves iff the ARP cache knows the destination, or the gateway if the destination is in another network; the frame carries that hardware address, the interface's own, both IP addresses, the identification and the data; the counter advances by one modulo 65536 in any case. |
| WireLayout.IpRxByOffset | ip.c:86-118 | ip_rx on any packet by offset: checksum of twenty bytes, header length, address or broadcast, and the data from the end of the header to the stated length, options skipped and padding cut off. |
| WireLayout.ArpReplyLayout | kernel.h:606-616 | The ARP reply of the round trip by offset. |
| WireLayout.OthersAreDropped | network.c:20-65 | Frames of other types than 0x0800 and 0x0806, and ARP packets that are no replies, change nothing. |
| Wire.DamagedHeader | ip.c:86-118 | With one aligned word of the IP header changed, ip_rx drops the packet for its checksum iff the word is the check field or the change is not between the two zeros 0x0000 and 0xFFFF; otherwise it goes on with the changed header. |
| Wire.ArpReplyTeaches | network.c:48-65 | An ARP reply in a frame yields exactly its sender's addresses. |
| Net.AddBuffer | ip.c:12-20 | The summing loop equals the sum of the words, odd last byte included, and never overflows 32 bits within its bound. |
| Net.FoldSum | ip.c:21-23 | The folding loop terminates and equals Fold. |
| Net.IpChecksum | ip.c:11-25 | ip_checksum equals Checksum for up to 131074 bytes, the largest length at which no content overflows the sum. |
| Net.LongerSumsWrap | ip.c:11-25 | One word more of 0xFF bytes wraps the sum and gives a wrong checksum: the bound is exact. |
| Net.BuildIpPacket | ip.c:28-45 | The buffer filled field by field, summed and patched equals IpPacket. |
| Net.BuildFrame | ip.c:60-76 | The frame buffer equals Frame. |
| Net.IpLayer.Send | ip.c:27-84 | ip_send with each allocation or the device possibly missing: what it transmits and how the identification counter moves. |
| Net.IpLayer.SendTcp | tcp.c:143-177 | tcp_tx's packet goes out as IpSend says. |
| Net.IpLayer.SendEchoReply | network.c:113-141 | icmp_echo_reply, once its buffer is allocated, with each of ip_send's resources possibly missing. |
| Net.IpLayer.SendUdp | network.c:150-167 | udp_tx likewise. |
| Net.IpLayer.Accept | network.c:20-91 | network_rx at the interface: the frame is read as NetworkRx says, and an ARP reply updates the cache as arp_add does, nothing else. |
| Net.TcpChecksum | tcp.c:23-52 | The running sum over three buffers equals the checksum of pseudo header, header and data concatenated. |
| Net.FillTcpHeader | tcp.c:152-160 | The header filled in the source's order equals the header on the wire. |
| Net.BuildEchoReply | network.c:113-137 | The packet buffer with its in-place checksum equals EchoReply. |
| Net.Receive | network.c:20-65 | network_rx on the frame buffer equals NetworkRx of its old contents, ARP included. |
| Net.ReceiveIp | ip.c:86-118 | ip_rx in place, zeroing the check field while it sums, equals IpRx. |
| EndToEnd.FrameArrives | network.c:20-35 | A frame delivers its segment iff it is intact and for this host; with a noticed change in any IP header word, the check field included, it is dropped. |
| EndToEnd.SendersAreNotTold | tcp.c:192-207 | tcp_rx compares ports only: the same segment from any other host is received alike. |
| EndToEnd.FramesDeliverPrefix | tcp.c:192-383 | From the wire to the user with any number of hosts, connections, timers and cleanups: frames are lost, repeated, reordered, damaged in an IP header word or meant for others, and what tcp_recv returns on a connection is a prefix of the stream sent on its port pair. |
| EndToEnd.ConversationDeliversPrefix | tcp.c:192-383 | The same from the peer's SYN frame on, which makes the connection at a listener. |
| EndToEnd.ConversationArrives | tcp.c:192-329 | And a conversation gets through: intact frames of SYN, ACK and data reach a listener, and the user of its new socket reads the data. |
| EndToEnd.SegmentDamageIsUnnoticed | tcp.c:192-216 | A changed word of the segment reaches the connection: tcp_rx looks at no checksum. |
| EndToEnd.SegmentDamageShows | tcp.c:152-163 | Although the checksum that tcp_tx stored no longer matches. |
| SchedSpec.RunKeepsInv | scheduler.c:43-98 | Over every run of schedule, process creation and state changes the queue has no duplicates and the current thread is not on it. |
| SchedSpec.WaitsItsTurn | scheduler.c:43-98 | A queued thread advances by one place per schedule() and by nothing else. |
| SchedSpec.TurnComes | scheduler.c:70-98 | The thread at position k becomes current at exactly the (k+1)-th schedule(), whatever blocks, wakes or is created in between, and not before. |
| SchedSpec.PreemptedReturns | scheduler.c:77-89 | A thread preempted while running gets the CPU back after one call for every thread then queued. |
| SchedSpec.NewcomerWaits | scheduler.c:149-177 | A created thread is running, takes nobody's place, and gets the CPU at exactly the call after one for every thread then queued. |
| SchedSpec.ScheduleConserves | scheduler.c:77-89 | schedule() conserves the ready threads, except that a thread blocked while queued is run and leaves the set. |
| SchedSpec.BlockedIsForgotten | scheduler.c:77-87 | A blocked current thread stays current if nobody is queued, and otherwise never runs again, whatever happens later. |
| Sched.RunQueue.Enqueue | scheduler.c:43-55 | On the intrusive list: appended at the tail, state set to running, list still acyclic, duplicate-free, of length nr_running, ending at tail. |
| Sched.RunQueue.Dequeue | scheduler.c:57-68 | The head is unlinked with its next cleared, or NULL for an empty list. |
| Sched.Cpu.Schedule | scheduler.c:70-98 | schedule() in place equals Pick on the queue and the current thread. |
| Sched.Cpu.Create | scheduler.c:149-177 | A fresh running thread is queued as the specification says; the current thread stays. |

## Left out

- Locks in the classes: the sequential classes `Pmm`, `Vmm`, `Slab` and `Sched` have no spinlocks; `PmmSmp` models the page allocator's locks separately, at value level. kmalloc_lock and the run queues' locks are not modelled as steps, nor is the lock held across context_switch.
- PmmSmp.StepKeepsInv: the three zones are scanned by pmm_alloc_page and pmm_alloc_pages; pmm_alloc_huge_page and pmm_free_page are not steps of the concurrent model.
- pmm_early_alloc (memory.c:38-61) and the placement of bitmaps, which may overlap the memory that it hands out: each zone has its own bitmap array.
- Finding the memory map among the multiboot tags (memory.c:66-80): `Init` starts from the entries.
- The contents of data pages and their clearing, the TLB (invlpg), CR3, and whether page tables are reachable through PHYS_TO_VIRT: page-table memory is addressed by frame number.
- Translation through the recursive slot 510: the slot is excluded by precondition, and kept intact by the invariant.
- Bits above 47 of virtual addresses: the model, like the code, looks at the four indices and the page offset only.
- SlabRuns.WriteKeepsInv: clients write only behind the header of their slot; what happens when they use every byte they asked for is `SlabLimits.FullUseStaysInside`.
- Byte contents of heap memory inside a granule: a granule is read as one header.
- TcpSpec.DeliveryIsPrefix: streams shorter than 2^32 bytes, and a socket that is not reused; for a longer stream a very old segment can be mistaken for a new one.
- tcp_send and retransmission: what is sent is the answers of tcp_rx and tcp_close; snd_una has no range check, and congestion, RTO, TIME_WAIT and FIN_WAIT progress are not implemented in the code. The advertised window, 65536 cut to 16 bits, is a parameter of the packet.
- tcp_bind, tcp_listen and user sockets on a listener's port: one listener per port, and connections that it spawned.
- Tcp.SocketList.Rx: a spawned socket whose 64 KB buffer cannot be allocated; the code goes on with a null buffer, the model creates no socket.
- Net.IpChecksum: for more than 131074 bytes the sum may wrap; `Net.LongerSumsWrap` shows that it does.
- Net.IpLayer.SendTcp: payloads whose packet length fits 16 bits; a longer one would be cut by the source's uint16_t total.
- Wire.IpRx: answers Short where the code reads past the end of the frame without a check. The protocol handlers for ICMP and UDP receive are represented by the data they are given.
- Net.IpLayer.SendEchoReply: the code writes through the pointer of its packet buffer without a check; what a null one leads to is not modelled.
- Net.IpLayer.SendUdp: likewise.
- VmmRuns.RunKeepsSound: runs that map a 4 KB page under a huge page; what such a call does is said by the `VmmFlat.MapUnderHuge...` lemmas.
- VmmFlat.MapTakesEffectUnlessHuge: a huge page that begins with a table of the address's own path, where the translation afterwards depends on the contents of a data page; `VmmFlat.MapUnderHugeWrites` says what is written.
- Wire.DamagedHeader: one changed word at a time; two changes that cancel in the sum are not noticed by any checksum.
- EndToEnd.FramesDeliverPrefix: changes that the IP checksum does not notice, and changes of the segment, which `EndToEnd.SegmentDamageIsUnnoticed` shows to be delivered.
- arp_request, which sends nothing, device registration and drivers.
- Thread stacks, context_switch, sleep, and other CPUs' run queues: `SchedSpec` is one CPU. vruntime is never read.
- process_create's allocations and address space: only its effect on the queue.
- string.c, console.c and the device drivers.
