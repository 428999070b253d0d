# A verified model of the kernel memory stack

This project models the machine-dependent memory and thread layers of a small 32-bit kernel, bottom to top, together with four self-contained pieces of the same tree, and proves what they promise.

* **Physical pages.** RAM is one array of bytes (`Ram`). `Multiboot` says what the boot information blob in it means, `Pmm` is the allocator over a packed bitmap, and `PmmBoot` reads the memory map twice, the second time while the bitmap is already being written into the same RAM. The main results: which pages are free after boot, exactly; that the bitmap's place makes the second pass read what the first one read; and (`FrameOrder`) in which order frames are handed out.
* **Page tables.** `PageTables` is the processor's two-level walk over RAM (Intel SDM volume 3A, sections 4.3 and 4.6). `Pmap` builds tables on demand from allocator frames and is proved to change one page of one flat map at a time, with the access rights last asked for. What the code touches at its physical address is part of the state: a table frame that no loaded table maps to itself is a page fault, told apart from the panic for want of a frame. `PmapInit` proves what the kernel's definitive tables map, that they map nothing else, and exactly when there are frames within reach for them.
* **Kernel windows and boot.** `AddressSpace` and `KernelVm` follow the kernel image, the heap window and the guarded thread stacks: every page backed by a frame of its own, every guard page as it was before, every other translation and every other frame's bytes left alone. `Framebuffer`, `VmmTrial` and `KernelBoot` compose the boot stages of `kmain`: boot goes through exactly on the inputs that `KernelBoot.Given.Bootable` describes, and `KernelBoot.Given.Outcome` tells the panics from the page faults on all others. A framebuffer may lie anywhere but over free memory or the kernel itself; where it covers guard pages these are mapped, and `ScreenClash` is a machine on which that happens.
* **Kernel memory.** `KernelMemory` reads words at virtual addresses through those tables in that RAM. A store changes the one word it names and nothing of tables or bitmap. Heap, capability table and processor all work on this one memory.
* **Kernel heap.** `HeapSpec` is the heap as a list of blocks, with first fit, splitting and two-sided coalescing, and theorems over every run of calls. `Kmalloc` is the code: headers in the heap's own words, linked and overwritten in place, each operation tied to the block list and proved never to write into a live allocation or outside the heap window.
* **Capabilities.** `CapSpec` is the table as a map from handles to capabilities, over whole runs. `Capability` keeps its slots inside an allocation of the heap above and moves them when it grows.
* **Threads.** `Switch` is the context switch as machine steps. `ThreadRuns` proves, for any interleaving of switches and of writes by the running thread, that a thread goes on as it was suspended. `Scheduler` is the circular run queue driving that switch.
* **The kernel as a whole.** `Kernel` puts heap, stacks and scheduler together: thread structures are heap allocations, and allocation, freeing, creation, switches and stores by threads all keep heap and threads intact, each call (`Kernel.Stepped`) and any run of them (`Kernel.ResumesInRun`, `Kernel.KeptInRun`). `KernelStart` gets there from the boot loader's memory, and says exactly when that memory brings stale magic words into the heap.
* **Satellites.** `Tsc` (64-bit division and uptime), `Vga` (scrolling console), `LsRecursive` (recursive listing of a graph with cycles), `MkdirMode` (octal and symbolic modes).

Conventions. A panic or a page fault is an abort outcome, a value of an outcome type; what the code had written by then is not described further unless a clause says so. Heap positions count 16-byte granules. `esp` and the addresses in `Switch`, `ThreadRuns` and `Scheduler` count 4-byte words; the pointers stored in memory are byte addresses. Pointers are numbers. `& ~(PAGE_SIZE - 1)` and shifts are written as division; single-bit operators are the functions of `Bits`; a `mode_t` is the set of its bit numbers. Proofs use `hide` to keep definitions they do not need out of the solver's way.

What the code relies on, and the contracts therefore require:

* address plus length of memory map regions stays below 2^44, because page numbers are truncated to 32 bits (`src/kern/subr_pmm.c:71`, `src/kern/subr_pmm.c:97`); `PmmModule.Pmm.Reserve` and `FreeRegion` say what happens beyond;
* the boot loader's tags are well formed (nonzero sizes, an end tag inside the blob, `mod_start <= mod_end`, whole map entries of at least 24 bytes, framebuffer tags of at least 32), the end of the boot data does not wrap, and the highest available address is at most 4 GiB. The comment at `src/kern/amd64/pmm_boot.c:184` claims the last for every input; the fallback path for machines without a memory map does not cap `mem_upper`. `PmmBoot.MaxAvailableBounded` gives the exact condition, `PmmBoot.BeyondFourGib` an input on which the claim fails and `PmmBoot.FreeBeyond` when pages beyond what 32 bits address become free;
* kernel and blob lie in the 4 MiB that `boot.S` maps, as the code that reads them at physical addresses needs. For everything else that is touched at its physical address (bitmap, directory, tables) no such requirement is made: there the reach, 4 MiB before `lcr3` and the identity map after it, decides between success and fault;
* a framebuffer is a device (`KernelBoot.Given.Device`): none of its pages is memory that could be handed out or an address the kernel runs at, and its end is at most 4 GiB less one page, since the loop's 32-bit address would otherwise wrap. It may cover the trial mapping, the heap window and the stack windows, which then take its pages over; nothing in `main.c` checks that it covers no guard page. `KernelBoot.GuardsHold` gives the exact condition for n threads and `ScreenClash.BootsOnClash` an input on which it fails;
* clients of the heap write only into what they hold and do not store the magic word there, and hand `kfree` NULL or word-aligned pointers into the heap, and among these none where its tests pass although no block is there (`Kmalloc.KHeap.Freeable`). There are no such pointers while the magic word is on headers only (`Kmalloc.KHeap.MagicExact`, `Kmalloc.KHeap.ExactFreeable`), and `Kmalloc.NoFakeHeader` is the exact condition under which the tests tell live allocations from everything else. `kheap_init` does not clear its pages: `Kmalloc.StaleMagicPasses` gives a window on which `kfree` accepts a pointer that was never handed out, and `KernelStart.BringUp` the exact condition on the memory at boot;
* a running thread stays inside its own kernel stack, does not write a `context` field, and calls `yield` with eight words of stack left;
* `yield` and `scheduler_start` run to completion: the code does not disable interrupts there, and each switch is taken as one atomic step.

## Model

| member | source | states |
|---|---|---|
| HeapSpec.InitialInv | src/kern/subr_kmalloc.c:71-75 | the block that kheap_init makes satisfies the heap invariant with nothing allocated |
| HeapSpec.TakeInv | src/kern/subr_kmalloc.c:105-120 | taking a fitting block, split or not, keeps the tiling of the heap and leaves no two free neighbours |
| HeapSpec.TakeLive | src/kern/subr_kmalloc.c:105-122 | it adds exactly one allocation, at the block's address, with at most one granule beyond the size asked |
| HeapSpec.ReleaseInv | src/kern/subr_kmalloc.c:151-175 | marking free and absorbing both ways keeps the tiling and leaves no two free neighbours |
| HeapSpec.ReleaseLive | src/kern/subr_kmalloc.c:151-175 | it removes that allocation and keeps every other where it was |
| HeapSpec.TakeReleaseRoundTrip | src/kern/subr_kmalloc.c:105-175 | an allocation freed at once leaves the block list exactly as it was |
| HeapSpec.Conservation | src/kern/subr_kmalloc.c:71-75 | data sizes plus one header per block always add up to HEAP_SIZE |
| HeapSpec.LiveDisjoint | src/kern/subr_kmalloc.c:101-122 | different live allocations, headers included, are disjoint and inside the heap |
| HeapSpec.MallocFirstFit | src/kern/subr_kmalloc.c:81-126 | for any size: a request is served from the lowest-address free block that fits, and refused exactly when it is for 0 bytes or none fits |
| HeapSpec.MallocEffect | src/kern/subr_kmalloc.c:81-127 | success keeps the invariant and adds one new allocation of at least the size asked and under 32 bytes more |
| HeapSpec.FreeEffect | src/kern/subr_kmalloc.c:129-178 | kfree returns exactly on a live allocation and removes it alone; it panics over a double free exactly at a free block, and over a bad magic word exactly where no block starts |
| HeapSpec.RunKeeps | src/kern/subr_kmalloc.c:81-178 | every run of kmalloc and kfree keeps the invariant; what was not live and is never handed out stays not live |
| HeapSpec.RunAppend | src/kern/subr_kmalloc.c:81-178 | a run in two parts is the second part run on what the first leaves, panics included |
| HeapSpec.DoubleFreePanics | src/kern/subr_kmalloc.c:138-149 | a second free, after any run that did not hand the block out again, panics |
| HeapSpec.NothingLive | src/kern/subr_kmalloc.c:71-75 | with nothing held, the only list the invariant allows is the one kheap_init made |
| HeapSpec.FreeAllRestores | src/kern/subr_kmalloc.c:129-178 | freeing every live block, in any order after any history, restores that single free block |
| HeapSpec.LargeAllocations | src/kern/subr_kmalloc.c:101-126 | at most 16384 allocations of more than 32 bytes can be held at once |
| Kmalloc.KHeap.constructor | src/kern/subr_kmalloc.c:71-75 | the head header written over a window of any contents is the initial block list; magic words are on headers only exactly when the window held none beyond the first header; nothing outside the window changes |
| Kmalloc.InitialHeader | src/kern/subr_kmalloc.c:71-75 | in figures: the four words of that header |
| Kmalloc.KHeap.KMalloc | src/kern/subr_kmalloc.c:81-127 | the pointer and the headers in memory afterwards are those of the block-list operation; no live allocation's data changes, no word outside the heap window and no page table |
| Kmalloc.KHeap.FindFit | src/kern/subr_kmalloc.c:101-104 | the walk along the headers stops at the lowest free block that is large enough, or at NULL |
| Kmalloc.KHeap.Split | src/kern/subr_kmalloc.c:105-120 | the stores on the block taken, as an exact change of header words |
| Kmalloc.SplitRealisesTake | src/kern/subr_kmalloc.c:105-120 | those stores turn the headers of the list into the headers of the list with the block taken |
| Kmalloc.KHeap.KFree | src/kern/subr_kmalloc.c:129-178 | at a block, or with the magic word on headers only, returns or panics as the block list says; where no block is, panics as the words there say; headers afterwards are those of the coalesced list; live data, words outside the window and page tables unchanged; a panic writes nothing |
| Kmalloc.KHeap.ExactFreeable | src/kern/subr_kmalloc.c:138-149 | with the magic word on headers only, any word-aligned pointer into the heap may be handed to it |
| Kmalloc.KHeap.Unlink | src/kern/subr_kmalloc.c:151-175 | the three in-place steps of a free together realise the coalescing release, and the magic word stays on headers only |
| Kmalloc.KHeap.AbsorbNext | src/kern/subr_kmalloc.c:157-163 | a free next block is absorbed, its magic cleared, and nothing else in the list moves |
| Kmalloc.KHeap.AbsorbInPrevious | src/kern/subr_kmalloc.c:165-175 | a free previous block, found by the walk from the head, absorbs the block |
| Kmalloc.KHeap.Previous | src/kern/subr_kmalloc.c:167-169 | the walk ends at the block just before, or NULL at the head |
| Kmalloc.MagicTest | src/kern/subr_kmalloc.c:138-140 | the magic comparison passes exactly when the pointer is that of a block of the list |
| Kmalloc.PassesExactly | src/kern/subr_kmalloc.c:138-149 | which of the three outcomes the two tests of kfree choose, in terms of the block list |
| Kmalloc.PassesAt | src/kern/subr_kmalloc.c:138-149 | at one pointer they tell whether it is a live allocation's, unless they pass where no header is |
| Kmalloc.PassesLive | src/kern/subr_kmalloc.c:138-149 | they pass for live allocations and nothing else exactly when no words in the heap look like the header of an allocated block without being one |
| Kmalloc.StaleMagicPasses | src/kern/subr_kmalloc.c:71-75 | on a freshly set up heap whose pages hold an old header they pass for a pointer that no kmalloc handed out |
| Kmalloc.StoreKeepsHeaders | src/kern/subr_kmalloc.c:40-52 | a client's store into its own allocation leaves every header, and the exactness of the magic words, alone |
| CapSpec.InsertRefinesMap | src/kern/subr_cap.c:82-110 | insert binds the least handle not in use, keeps every other capability and epoch across growth, and fails exactly when full and unable to grow |
| CapSpec.InsertSlots | src/kern/subr_cap.c:82-110 | in figures: kind 0 is refused with 0xffffffff and nothing changed; otherwise one slot is written, and a table without an empty slot first grows from 0 to 16 slots or doubles, with zeros in the new ones |
| CapSpec.DeleteRefinesMap | src/kern/subr_cap.c:128-151 | delete removes exactly the handle given, and succeeds exactly when it is held |
| CapSpec.DeleteSlots | src/kern/subr_cap.c:128-151 | in figures: kind, rights and object become 0, the epoch one more modulo 2^32, and no other slot changes |
| CapSpec.CapacityBounded | src/kern/subr_cap.c:56-61 | over every run the capacity is 0 or 16 times a power of two and at most 32768, so CAP_INVALID is never a handle |
| CapSpec.CapacityBound | src/kern/subr_kmalloc.c:94-95 | the next size passes kmalloc's limit exactly below capacity 32768 |
| CapSpec.EpochCountsDeletes | src/kern/subr_cap.c:143-146 | a slot's epoch is the number of successful deletes of its handle, modulo 2^32, growth included |
| CapSpec.HeldUntilDeleted | src/kern/subr_cap.c:82-151 | a handle in use stays in use until it is deleted, whatever else runs |
| CapSpec.InsertedAt | src/kern/subr_cap.c:92-105 | an insert takes an empty handle and leaves its epoch as the deletes so far made it |
| CapSpec.DeletedBetween | src/kern/subr_cap.c:82-151 | two insertions at one handle have a delete of it between them |
| CapSpec.HandleAndEpochNameOneInsertion | src/kern/sys/cap.h:23-28 | within 2^32 deletes of a handle, the pair (handle, epoch) names one insertion of the run |
| Capability.CapTable.constructor | src/kern/subr_cap.c:37-38 | a fresh table holds nothing |
| Capability.CapTable.Lookup | src/kern/subr_cap.c:112-126 | a pointer to the slot exactly when the handle is in range and its kind is the one asked; for a real kind, exactly when that capability is held |
| Capability.CapTable.Delete | src/kern/subr_cap.c:128-151 | the slots in memory become those of the specified delete, and only the table's own allocation is written |
| Capability.CapTable.Insert | src/kern/subr_cap.c:82-110 | the slots in memory become those of the specified insert, for the heap as it is; other allocations keep their data |
| Capability.CapTable.Grow | src/kern/subr_cap.c:56-80 | fails exactly when kmalloc does; otherwise the table has moved to a new allocation with old slots first and empty ones after |
| Capability.CapTable.FindEmpty | src/kern/subr_cap.c:92-94 | the loop stops at the first empty slot |
| Capability.GrowSize | src/kern/subr_cap.c:59-60 | the size product never wraps for a capacity the table can have |
| PmmModule.FreePageBit | src/kern/subr_pmm.c:39-43 | a page is in the free set exactly when it is below the total and its bit is clear |
| PmmModule.OneBitFree | src/kern/subr_pmm.c:27-37 | setting or clearing one bit removes or adds that page and no other |
| PmmModule.OneBitCount | src/kern/subr_pmm.c:27-37 | and changes the number of clear bits by one |
| PmmModule.Pmm.FreeCount | src/kern/subr_pmm.c:148-152 | npages_free is the size of the free set |
| PmmModule.Pmm.constructor | src/kern/subr_pmm.c:45-57 | everything starts taken, the cursor at 0, and only bitmap bytes were written |
| PmmModule.Pmm.TakePage | src/kern/subr_pmm.c:75-80 | the page stops being free, counter and bit agreeing |
| PmmModule.Pmm.GivePage | src/kern/subr_pmm.c:101-106 | the page becomes free, counter and bit agreeing |
| PmmModule.Pmm.Reserve | src/kern/subr_pmm.c:59-81 | the pages of the range rounded outwards, numbers cut to 32 bits, stop being free; for ranges within 2^44 exactly the pages that share a byte with it |
| PmmModule.Pmm.FreeRegion | src/kern/subr_pmm.c:83-107 | the pages of the range rounded inwards, numbers cut to 32 bits, become free; for ranges within 2^44 exactly the pages below the total wholly inside it |
| PmmModule.Pmm.Alloc | src/kern/subr_pmm.c:109-126 | the first free page in cyclic order from the cursor, which moves past it, and the count falls by one; ENOMEM exactly when none is free, and then nothing changes |
| PmmModule.Pmm.FreePage | src/kern/subr_pmm.c:128-140 | the page of the address becomes free when it is below the total |
| PmmModule.TouchedPages | src/kern/subr_pmm.c:68-73 | rounding outwards gives the pages the range touches |
| PmmModule.InsidePages | src/kern/subr_pmm.c:92-99 | rounding inwards gives the pages wholly inside the range |
| PmmModule.TouchesExact | src/kern/subr_pmm.c:68-73 | a page touches a range exactly when one of its bytes is in the range |
| PmmModule.InsideExact | src/kern/subr_pmm.c:92-99 | a page is inside a range exactly when all of its bytes are |
| PmmModule.NoneFree | src/kern/subr_pmm.c:114-125 | a whole turn of the cursor without a free page means that none is free |
| PmmModule.NextFreeFirst | src/kern/subr_pmm.c:114-125 | the page so found is free and no page before it in that order is |
| FrameOrder.NextFrom | src/kern/subr_pmm.c:109-126 | while the cursor moves up, frames come from the lowest up, and the next one lies below a limit exactly when enough of them do |
| FrameOrder.AscendingEmpty | src/kern/subr_pmm.c:109-126 | counting those handed out and those left always gives all of them |
| Multiboot.TagsAgree | src/kern/amd64/include/machine/multiboot.h:107-118 | memories with the same blob bytes have the same tags, found in the same places |
| Multiboot.BlobAgrees | src/kern/amd64/pmm_boot.c:94-120 | such memories give the same modules and the same available regions |
| Multiboot.NextTagExact | src/kern/amd64/include/machine/multiboot.h:112-113 | from a multiple of 8, the next tag is at the least multiple of 8 at or past the end of this one |
| Multiboot.FindExact | src/kern/amd64/include/machine/multiboot.h:107-118 | the tag found is met on the way to the end tag, has the kind asked, and no tag met before it has; 0 exactly when none has |
| Multiboot.ModulesExact | src/kern/amd64/pmm_boot.c:142-148 | a region is a module exactly when a tag of type 3 that is met has its start in word 2 and its end in word 3 |
| Multiboot.AllModulesExact | src/kern/amd64/pmm_boot.c:164-171 | the same of the whole blob |
| Multiboot.MapRegionsExact | src/kern/amd64/pmm_boot.c:117-119 | a region is available in a map exactly when some entry k, at 16 + k * entry_size and inside the tag, has type 1 and its base and length |
| PmmBoot.FindTagIn | src/kern/amd64/include/machine/multiboot.h:107-118 | the walk finds the first tag of a type, or 0, even in RAM changed outside the blob |
| PmmBoot.MmapMaxAvailable | src/kern/amd64/pmm_boot.c:62-92 | the highest end of an AVAILABLE entry, each capped at 4 GiB; without a map, 1 MiB plus mem_upper; MaxAvailableExact says so in the words of the blob |
| PmmBoot.MaxAvailableExact | src/kern/amd64/pmm_boot.c:62-92 | in the words of the blob: no entry of type 1 of the first map ends higher, each end cut at 2^32, and one ends there; without a map 0x100000 plus 1024 times word 3 of the first tag of type 4, or 0 |
| PmmBoot.CappedEndExact | src/kern/amd64/pmm_boot.c:79-91 | the highest address is no lower than any capped end and is one of them |
| PmmBoot.MaxAvailableBounded | src/kern/amd64/pmm_boot.c:71-87 | that address is at most 4 GiB exactly when there is a map, no basic memory tag, or mem_upper is at most 4193280 KiB |
| PmmBoot.BeyondFourGib | src/kern/amd64/pmm_boot.c:71-75 | a blob without a memory map from which the highest address comes out 1 KiB beyond 4 GiB |
| PmmBoot.FreeBeyond | src/kern/subr_pmm.c:118-121 | exactly which machines without a memory map get a free page beyond 4 GiB; the first has the cut address of page 0, which is reserved |
| PmmBoot.BootDataEnd | src/kern/amd64/pmm_boot.c:130-151 | the highest end among kernel, blob and modules |
| PmmBoot.HighestEndBounds | src/kern/amd64/pmm_boot.c:130-151 | which is no lower than any of them and is one of them |
| PmmBoot.MmapFreeAvailable | src/kern/amd64/pmm_boot.c:95-120 | the pages freed are those inside the regions of the first pass, though the map is read from RAM the bitmap is being written to; HasPageExact says which pages these are in the words of the blob |
| PmmBoot.HasPageExact | src/kern/amd64/pmm_boot.c:94-120 | a page lies in an available region exactly when it lies whole in an entry of type 1 of the first map or, without one, in the first 1024 * mem_lower bytes or in the 1024 * mem_upper bytes from 1 MiB |
| PmmBoot.ModulePageExact | src/kern/amd64/pmm_boot.c:164-171 | a page touches a module exactly when a tag of type 3 has a byte of it between its words 2 and 3 |
| PmmBoot.FreeBasic | src/kern/amd64/pmm_boot.c:105-111 | without a map, the lower and upper memory sizes are what is freed |
| PmmBoot.ReserveBootData | src/kern/amd64/pmm_boot.c:156-173 | every page touched by the blob or a module stops being free |
| PmmBoot.PlaceBitmap | src/kern/amd64/pmm_boot.c:182-191 | page total, bitmap size in pages and bitmap address |
| PmmBoot.PlacementExact | src/kern/amd64/pmm_boot.c:182-194 | in figures: as few pages as cover the highest address, as few bitmap pages as hold their bits, and what it takes for these to end below the highest address and below 4 MiB |
| PmmBoot.BitmapClear | src/kern/amd64/pmm_boot.c:186-191 | the bitmap starts page-aligned after kernel, blob and every module, and its pages hold its bits |
| PmmBoot.TotalFits | src/kern/amd64/pmm_boot.c:193-196 | passing the size test, the bitmap and its page count fit a 4 GiB machine |
| PmmBoot.SecondPassReadsTheSame | src/kern/amd64/pmm_boot.c:24-30 | whatever is written to the bitmap's pages, kernel, blob and modules keep their bytes and the map reads the same |
| PmmBoot.PmmBootstrap | src/kern/amd64/pmm_boot.c:175-212 | panics exactly when the bitmap does not fit below the highest address, faults exactly when it fits but does not end in the 4 MiB that boot.S maps; otherwise the free set is BootFree and only bitmap bytes changed |
| PmmBoot.FreeAfterBoot | src/kern/amd64/pmm_boot.c:94-204 | a page is free after boot exactly when it lies whole in one entry of type 1 (without a map, in one of the two basic sizes), as the words of the blob say, below the page total, and touches neither the first MiB, kernel, bitmap, blob nor a module listed by a tag of type 3 |
| PmmBoot.FreeBelow4G | src/kern/amd64/pmm_boot.c:183-204 | below 4 GiB the same without a bound on the page number: with a memory map always, without one when lower memory does not reach past upper |
| PageTables.TablesApart | src/kern/amd64/pmap.c:67-83 | present directory entries own distinct pages, none the directory, and grant every right |
| PageTables.FlatExact | src/kern/amd64/pmap.c:56-95 | what the processor makes of the words of directory and table: presence, the right to write and that of user mode need bits 0, 1 and 2 of both, bits 12 to 31 are the address |
| PageTables.SetEntry | src/kern/amd64/pmap.c:91 | rewriting one table entry changes the processor's translation of that page only, to what the entry says |
| PageTables.SetEntryTree | src/kern/amd64/pmap.c:91-105 | and keeps the tree well formed |
| PageTables.HangTable | src/kern/amd64/pmap.c:71-81 | hanging a zeroed page into an absent entry changes no translation and keeps the tree |
| PageTables.TreeUnchanged | src/kern/amd64/pmap.c:56-84 | a tree whose pages keep their bytes translates as before |
| PmapModule.MakeEntry | src/kern/amd64/pmap.c:91 | the entry is present, names the frame of pa and carries the write and user bits of the flags |
| PmapModule.PteFlags | src/kern/subr_vmm.c:13-24 | the portable write and user bits and no other |
| PmapModule.Pmap.TakeFrame | src/kern/amd64/pmap.c:67-69 | the frame next in order, no table and no bitmap; no translation changes and nothing gets out of reach |
| PmapModule.Pmap.NewTable | src/kern/amd64/pmap.c:67-83 | panic exactly without a free frame, fault exactly when the next frame is not mapped at its own address; otherwise that frame is the table and the map stays the same |
| PmapModule.Pmap.PtFor | src/kern/amd64/pmap.c:56-84 | the table of a directory entry, made if asked; missing, panic and fault exactly when the code says |
| PmapModule.Pmap.MapAt | src/kern/amd64/pmap.c:86-95 | succeeds exactly when the table is there or the next free frame can be touched; the flat map changes at exactly one page; the frame taken, if any, is the next one; pages outside tables and bitmap keep their bytes |
| PmapModule.Pmap.Unmap | src/kern/amd64/pmap.c:97-107 | exactly that page becomes unmapped and no frame is taken or given back |
| PmapModule.Pmap.Extract | src/kern/amd64/pmap.c:109-118 | the physical address of the flat map; 0 exactly when unmapped or physical address 0 |
| PmapModule.Pmap.VmmMap | src/kern/subr_vmm.c:26-30 | the access the processor grants (both levels intersected) is that of bits 1 (write) and 2 (user) of the portable flags given, with the same outcomes |
| PmapModule.ReachedWithTable | src/kern/amd64/pmap.c:10-19 | a new table leaves all structures within reach when its own frame is |
| PmapInit.Init | src/kern/amd64/pmap.c:120-160 | succeeds exactly when directory and tables of the layout, which take the lowest free frames, lie in 4 MiB, and panics exactly when there are not that many frames in all; then, page by page and in figures, pages 1 up to the total or 2048 go to themselves, the kernel's again 0xc0000 pages up, all writable and none for user mode, page 0 and all others nowhere; reserved pages keep their bytes |
| PmapInit.EmptyDirectory | src/kern/amd64/pmap.c:130-131 | a zeroed directory is a well-formed tree that maps nothing |
| PmapInit.MapPages | src/kern/amd64/pmap.c:141-149 | a loop over a range of pages: how many tables it takes, that it fails exactly when fewer frames than that are within reach, and otherwise that each page of the range is mapped to its frame, writable and not for user mode, and every other page as before |
| PmapInit.MapRange | src/kern/amd64/pmap.c:141-149 | the loop itself, page by page, with the same map at its end |
| PmapInit.LayoutWhole | src/kern/amd64/pmap.c:138-149 | the low range and the kernel alias together are the layout, over a directory that was empty |
| PmapInit.LayoutExact | src/kern/amd64/pmap.c:138-149 | in figures: where each page of the layout goes, writable, not for user mode; page 0 and all others nowhere |
| PmapInit.Switched | src/kern/amd64/pmap.c:52-54 | after lcr3 directory, tables and bitmap are mapped at their own addresses by the new tables, and a frame is within reach exactly below the low end |
| AddressSpace.MapFresh | src/kern/subr_kmalloc.c:61-69 | exact outcome of giving one page a fresh frame, over a page that was unmapped or a device's; the frame was free and next in order, no other translation changes, and every frame that is not bitmap or table by then keeps its bytes |
| AddressSpace.OthersAreKept | src/kern/amd64/pmap.c:86-95 | changes confined to bitmap and tables leave every other frame, free ones included, alone |
| AddressSpace.SpareHarmless | src/kern/amd64/pmap.c:10-19 | at a page that is unmapped, or whose number is a private frame's, nothing lies that the code reaches at its physical address, before or after a table is made |
| KernelVm.PageJoins | src/kern/subr_kmalloc.c:61-69 | the page joins the windows on a private frame of its own, and every other window page keeps its frame and its bytes |
| KernelVm.Kvm.KheapInit | src/kern/subr_kmalloc.c:57-69 | succeeds exactly with 256 free frames and, unless it is there, a table in reach; the whole window is then mapped to frames that were free, every other translation, window frame and private byte unchanged |
| KernelVm.Kvm.ThreadStackAlloc | src/kern/subr_thread.c:46-69 | exact outcome of a new stack, whose page for the n-th thread is at 0xe0001000 + 0x3000 * n; its frame was free, every other translation is unchanged, and kernel, heap and other stacks keep frames and bytes |
| KernelVm.GuardsAsBefore | src/kern/subr_thread.c:33-37 | after any number of stacks the pages below and above every stack go where they went before there were windows |
| KernelVm.ThreadVaNoWrap | src/kern/subr_thread.c:44-66 | window addresses are as laid out exactly up to 43690 threads |
| KernelMemory.WordsApart | src/kern/subr_kmalloc.c:61-69 | different words of the kernel pages never share a byte of RAM |
| KernelMemory.Memory.Store | src/kern/subr_kmalloc.c:71-75 | a store at a virtual address changes exactly that word of the view and four bytes of one private frame; tables, bitmap and allocator stay as they were |
| KernelMemory.Memory.NewStack | src/kern/subr_thread.c:46-69 | after a new stack every word of kernel, heap and other stacks reads as before |
| KernelBoot.BootFreeClear | src/kern/amd64/pmm_boot.c:198-204 | after boot no free page overlaps the bitmap and page 0 is never free |
| Framebuffer.ReadScreen | src/kern/main.c:132-139 | the framebuffer read from RAM after the tables were built is that of the blob at boot |
| Framebuffer.ScreenExact | src/kern/main.c:132-139 | in figures: the first tag of type 8, if its byte 29 is 1 and its address 32 bits wide; from that address over the product of words 4 and 6, in 32 bits |
| Framebuffer.MapScreen | src/kern/main.c:141-142 | its pages are mapped to themselves, writable and not for user mode, and every other page as before, exactly when enough frames for its tables are in reach |
| Framebuffer.TriedExact | src/kern/main.c:141-185 | in figures: where each page goes after the trial mapping, page 0xd0000 nowhere |
| Framebuffer.ClearExactly | src/kern/main.c:141-142 | in figures, when the framebuffer covers no guard page of the first n stacks |
| VmmTrial.Trial | src/kern/main.c:169-188 | exact outcome of the trial mapping; it leaves the test page unmapped, one table more, and all bytes outside tables and bitmap but the word it wrote |
| KernelBoot.BootDataKept | src/kern/main.c:120-121 | kernel, blob and module bytes survive the bitmap and then the page tables |
| KernelBoot.BootTables | src/kern/main.c:120-121 | pmm_bootstrap followed by pmap_init, wherever the framebuffer lies: booted, panic and fault exactly when; valid tables over frames of the boot free set; no page but bitmap and the frames handed out was written |
| KernelBoot.KernelWindows | src/kern/amd64/pmap.c:144-149 | after it the kernel's own pages are backed by its own private frames, and every page of the heap and stack windows can be mapped without harm, on screen or not |
| KernelBoot.Boot | src/kern/main.c:120-190 | booted, panic or page fault, each exactly when; booted exactly on the bootable inputs (bitmap fits and is in reach, tables in reach, 256 heap frames); then the layout holds outside the heap window with the framebuffer on top and the test page unmapped, heap frames and tables come from the boot free set, and kernel, blob and module bytes are intact; every page mapped is writable and none is for user mode |
| KernelBoot.MapUpExact | src/kern/main.c:120-190 | in figures: where each page goes after boot: pages 0xd1000 to 0xd10ff to frames that were free, the framebuffer and pages 1 up to the total or 2048 to themselves, the kernel's again 0xc0000 pages up, all others nowhere; no page for user mode |
| KernelBoot.BootsExactly | src/kern/main.c:120-190 | the staged outcome and the bootable inputs agree |
| KernelBoot.HeapAfterTrial | src/kern/main.c:169-190 | what kheap_init comes to after the trial, from the number of free frames and how many of them are in reach |
| KernelBoot.TrialLeaves | src/kern/main.c:169-188 | after the trial every free frame holds what the boot loader left in it, but for the one word written |
| KernelBoot.GuardsHold | src/kern/subr_thread.c:33-37 | the guard pages of the first n stacks are unmapped, after any number of stacks, exactly when the framebuffer covers none of them |
| ScreenClash.BootsOnClash | src/kern/main.c:132-142 | a blob from which boot goes through with the framebuffer on the first guard page |
| ScreenClash.GuardLost | src/kern/subr_thread.c:33-37 | there that guard page is mapped, whatever happens later |
| KernelBoot.BootableWithoutScreen | src/kern/main.c:120-190 | without a framebuffer: tables within 4 MiB, four more frames below the low end, and 258 beyond the tables in all |
| KernelStart.BringUp | src/kern/main.c:120-222 | from the same inputs: a heap with one free block and a scheduler without threads, over those tables; the magic word is on headers only exactly when the frames the heap got held none at boot past the first header; no page is for user mode |
| KernelStart.CleanMemory | src/kern/subr_kmalloc.c:57-75 | which is so whenever no free memory at boot held the magic word |
| Switch.Cpu.Swtch | src/kern/amd64/switch.S:25-44 | the pushes leave the old context on the old stack and its address in *old; the registers become those of the new context |
| Switch.Cpu.PushAll | src/kern/amd64/switch.S:29-33 | what the five pushes write |
| Switch.Cpu.PopAll | src/kern/amd64/switch.S:38-44 | what the pops and the return load |
| ThreadRuns.CallerSuspended | src/kern/amd64/switch.S:25-36 | a caller of swtch is left suspended with its registers and return point, only its own stack and context field written |
| ThreadRuns.SwitchResumes | src/kern/amd64/switch.S:25-44 | the thread switched in has exactly the registers it was suspended with, and every other stays suspended |
| ThreadRuns.StepKeeps | src/kern/subr_thread.c:223-235 | register changes, stores inside the running stack and switches all keep every other thread suspended |
| ThreadRuns.RecordStays | src/kern/subr_thread.c:223-235 | over any run without a switch to a thread, what it is to resume with does not change |
| ThreadRuns.ResumesAsSuspended | src/kern/amd64/include/machine/context.h:37-44 | switched away and next switched back, a thread goes on with its callee-saved registers, flags, return address and stack pointer, whatever ran between |
| ThreadRuns.FreshIsSuspended | src/kern/subr_thread.c:163-176 | a prepared thread is suspended at the trampoline with eflags 0x202, zero registers and an empty stack that ends at 0xe0002000 + 0x3000 * id, no other thread disturbed |
| ThreadRuns.StartResumes | src/kern/subr_thread.c:260-264 | the first switch, from the boot stack, enters the thread as suspended and disturbs none |
| Scheduler.RunQueue.ThreadNew | src/kern/subr_thread.c:126-153 | the new ready thread joins the one ring behind the head |
| Scheduler.RunQueue.Splice | src/kern/subr_thread.c:141-147 | the two pointer writes keep a single cycle through all threads and the new one |
| Scheduler.RunQueue.HandOver | src/kern/subr_thread.c:226-232 | current moves to its next field; exactly it is RUNNING, all others READY, and esp0 is the top of its kernel stack, 0xe0002000 + 0x3000 * id |
| Scheduler.Sched.ThreadCreate | src/kern/subr_thread.c:178-187 | ring, context and suspended state of all threads after a creation, before or after the start |
| Scheduler.InitContext | src/kern/subr_thread.c:163-176 | the stores that prepare a stack |
| Scheduler.Sched.Yield | src/kern/subr_thread.c:223-235 | nothing for no thread or one; otherwise the machine takes the switch step of ThreadRuns to the next thread of the ring, which resumes as suspended |
| Scheduler.Sched.SchedulerStart | src/kern/subr_thread.c:252-264 | panics exactly with no thread; otherwise the head of the queue runs with the registers it was prepared with |
| Scheduler.CallSwtch | src/kern/subr_thread.c:234 | arguments and return address pushed, then the routine: the memory and registers of a whole call |
| Scheduler.RoundRobin | src/kern/subr_thread.c:223-235 | n steps round a ring of n make each position current exactly once and come back to the first |
| Scheduler.InTurnReaches | src/kern/subr_thread.c:223-235 | on the machine, a run whose switches go round the ring leaves the thread that many turns on running, whatever the threads do in between |
| Scheduler.FullTurn | src/kern/subr_thread.c:223-235 | with no creation, as many yields as threads bring the first one back with the registers, flags, return point and stack pointer it left with |
| Scheduler.FullTurnLast | src/kern/subr_thread.c:223-235 | the last of those switches is made by its predecessor in the ring |
| Kernel.ThreadsBounded | src/kern/subr_thread.c:126-131 | the heap has room for 16384 thread structures |
| Kernel.Machine.NeverWraps | src/kern/subr_thread.c:44-66 | however many threads are created, at most 16384 exist and next_thread_va has not wrapped, because each holds 40 bytes of the heap |
| Kernel.Machine.ThreadCreate | src/kern/subr_thread.c:126-187 | exact outcomes: no heap, no stack, created; then heap and all threads are intact with the new one suspended at the trampoline, every allocation there was keeps its data, and the magic word stays on headers only |
| Kernel.Machine.Yield | src/kern/subr_thread.c:223-235 | the next thread of the ring resumes as suspended; of the heap only the leaving thread's structure changes, headers and every other allocation stay |
| Kernel.Machine.Allocate | src/kern/subr_kmalloc.c:81-127 | kmalloc by any client leaves every thread suspended as it was |
| Kernel.Machine.Release | src/kern/subr_kmalloc.c:129-178 | so does kfree of anything but a thread structure; only the allocation pointed at is given up |
| Kernel.Machine.InsertCapability | src/kern/subr_cap.c:82-110 | cap_insert over the shared heap: the specified insert, every thread suspended as it was, every other allocation held with its data, and the table's allocation still no thread's |
| Kernel.Machine.DeleteCapability | src/kern/subr_cap.c:128-151 | cap_delete: the specified delete, written into the table's own allocation alone, every thread suspended as it was |
| Kernel.Machine.StackStore | src/kern/subr_thread.c:223-235 | a store by the running thread into its own stack reaches neither heap nor other threads |
| Kernel.Machine.DataStore | src/kern/subr_kmalloc.c:40-52 | a store into an allocation changes that word alone and no thread |
| Kernel.Machine.Start | src/kern/subr_thread.c:252-264 | the first switch, from the boot stack, leaves the heap as it was |
| Kernel.SwitchKeepsHeap | src/kern/amd64/switch.S:25-44 | a context switch writes no header and no allocation but the structure of the thread that leaves |
| Kernel.ResumesInRun | src/kern/subr_thread.c:223-235 | over any run of these calls, threads created on the way included, a thread that is next switched to goes on with what it was suspended with |
| Kernel.KeptInRun | src/kern/subr_kmalloc.c:81-178 | over any run of these calls, an allocation that none of them frees or writes is held with its data at the end |
| Tsc.Udiv64 | src/kern/amd64/tsc.c:37-57 | q * d + r = n with r < d for every nonzero divisor, above 2^63 included; division by zero gives all ones and n |
| Tsc.PrefixFits | src/kern/amd64/tsc.c:46-47 | the shifted remainder never overflows, being at most a prefix of n |
| Tsc.Clock.Calibrate | src/kern/amd64/tsc.c:81-88 | if n cycles pass between the two readings and 1000 n fits 64 bits, the frequency is 20 n, and reaches 1 MHz exactly from n = 50000 |
| Tsc.Clock.Uptime | src/kern/amd64/tsc.c:91-102 | n cycles after boot, at 1 MHz or more, the pair is the whole microseconds of n: seconds cut to 32 bits, and the rest below 10^6; below 1 MHz a constant |
| Tsc.CounterTicks | src/kern/amd64/tsc.c:88 | what the counter reads n cycles later: one more each cycle, 0 after 2^64 - 1 |
| Tsc.ElapsedExact | src/kern/amd64/tsc.c:96 | the 64-bit difference of two readings is the number of cycles between them, across the wrap too |
| Tsc.ReadingsMonotone | src/kern/amd64/tsc.c:91-102 | of two readings after boot the later one gives no earlier pair while the seconds fit 32 bits, and the pair is then the time that passed |
| Tsc.PairExact | src/kern/amd64/tsc.c:100-101 | seconds and microseconds together are the elapsed microseconds exactly while the seconds fit 32 bits |
| Tsc.PairMonotone | src/kern/amd64/tsc.c:91-102 | until then the pair never decreases with elapsed cycles |
| Tsc.PairWraps | src/kern/amd64/tsc.c:100 | at every frequency the pair goes back when the seconds come to 2^32, at the first count of cycles that gets there |
| Tsc.MonotoneUpTo | src/kern/amd64/tsc.c:91-102 | up to a count of cycles the pair never goes back exactly when the seconds fit 32 bits there |
| Tsc.NeverSlow | src/kern/amd64/tsc.c:97-98 | the clock never falls behind the real microseconds, and is exact when the frequency is a whole number of MHz |
| Vga.Console.constructor | src/kern/amd64/vga.c:61-73 | the blank screen, 2000 cells of 0x0720, shows the empty page |
| Vga.Console.Putc | src/kern/amd64/vga.c:75-95 | after any sequence of characters the 2000 cells show the last 25 rows of the wrapped text, and the cursor is at its end; in figures: byte 10 stores nothing and starts a row, any other goes to cell 80 * row + col with 0x07, or 0xf0 for the log, in the high byte, no other cell changes, and past row 24 all rows move one up over a row of 0x0720 |
| Vga.Console.Scroll | src/kern/amd64/vga.c:49-59 | cell k takes cell k + 80, and the last 80 become 0x0720; no index beyond the screen |
| Vga.PageAppend | src/kern/amd64/vga.c:80-89 | laying out text paragraph by paragraph equals adding each character at the end |
| Vga.ScrollShown | src/kern/amd64/vga.c:49-59 | the scrolled cells show the page from the next row on |
| LsRecursive.Lister.PushVisit | src/bin/ls/ls.c:148-164 | refuses exactly what is on the stack, else pushes it, growing in place; the stack stays free of repetitions |
| LsRecursive.Lister.PopVisit | src/bin/ls/ls.c:166-170 | the top leaves the stack |
| LsRecursive.Lister.ListDir | src/bin/ls/ls.c:172-229 | ends on every finite graph, returns the stack as it was, and writes exactly the specified output |
| LsRecursive.Lister.Enter | src/bin/ls/ls.c:211-223 | one entry of the second loop: skipped, reported as a loop, or listed |
| LsRecursive.Lister.Read | src/bin/ls/ls.c:187-204 | the entries kept are the visible ones, in order |
| LsRecursive.VisibleExact | src/bin/ls/ls.c:188-196 | which names are listed: with -a all, with -A all but `.` and `..`, otherwise those without a first dot |
| LsRecursive.ShownAppend | src/bin/ls/ls.c:187-204 | entries are kept one by one, in order |
| LsRecursive.NamesExact | src/bin/ls/ls.c:207-208 | a listing holds the name of each entry kept, in order |
| LsRecursive.JoinExact | src/bin/ls/ls.c:62-75 | the directory without the slashes at its end, its first character always kept, one slash, and the name |
| LsRecursive.Lister.ListOperands | src/bin/ls/ls.c:316-320 | each operand is listed from an empty stack, left empty, and the output is that of the operands in order |
| LsRecursive.LeftFalls | src/bin/ls/ls.c:217-221 | the number of directories off the stack falls at every descent into one that opens |
| LsRecursive.WalkLists | src/bin/ls/ls.c:210-224 | below any stack, the listings are exactly those of the paths that extend it without repetition, and the warnings exactly those of subdirectories that lead back onto their path |
| LsRecursive.ListedExactly | src/bin/ls/ls.c:147-224 | from an operand, a path is listed exactly when it follows visible subdirectories, never repeats one and ends at one that opens |
| LsRecursive.WarnedExactly | src/bin/ls/ls.c:217-220 | from an operand, a loop is reported exactly for a visible subdirectory of a listed path that is already on it |
| LsRecursive.ReachableListed | src/bin/ls/ls.c:210-224 | every directory reachable by any chain is listed, cycles or not |
| LsRecursive.WalkSays | src/bin/ls/ls.c:172-224 | every listing holds the visible names of the directory it was reached for, under the path joined from the names on the way down; every warning is for an entry of such a directory that is on the way, and every error for a directory that does not open |
| LsRecursive.OneEach | src/bin/ls/ls.c:210 | without -R each operand gives exactly one listing of its visible names, or one error |
| MkdirMode.ApplyClause | src/bin/mkdir/mkdir.c:33-96 | fails exactly on what is not a clause and otherwise applies the clause's meaning: each bit is what the last action that decides it says, or as before |
| MkdirMode.Actions | src/bin/mkdir/mkdir.c:47-95 | the loop over operators: the meaning of the actions parsed, in order (ActionsExact says which bits that leaves) |
| MkdirMode.ReadBack | src/bin/mkdir/mkdir.c:40-95 | a clause written out is parsed to the same clause: the notation is unambiguous |
| MkdirMode.Accepted | src/bin/mkdir/mkdir.c:40-95 | exactly the texts of well-formed clauses are accepted |
| MkdirMode.ParseMode | src/bin/mkdir/mkdir.c:99-123 | octal when the text starts with a digit, otherwise the clauses between commas, empty ones skipped, applied in order to 0777: each bit is what the last action that decides it says, or whether it is below 9; fails exactly when the digits or a clause are none |
| MkdirMode.ParseOctal | src/bin/mkdir/mkdir.c:105-111 | accepts exactly the texts of octal digits up to 07777 |
| MkdirMode.OctalAccepted | src/bin/mkdir/mkdir.c:105-109 | accepted exactly when all are digits from 0 to 7 and all but the last four are zeros |
| MkdirMode.OctalMeaning | src/bin/mkdir/mkdir.c:105-111 | each bit of the mode is the bit of the digit it stands in |
| MkdirMode.ParseSymbolic | src/bin/mkdir/mkdir.c:113-122 | the symbolic branch, with the same bit by bit |
| MkdirMode.NextToken | src/bin/mkdir/mkdir.c:115 | the next non-empty piece between commas |
| MkdirMode.Pieces | src/bin/mkdir/mkdir.c:115 | a text without a comma is one piece, or none if empty, and a comma separates it from the pieces that follow |
| MkdirMode.ModeAccepted | src/bin/mkdir/mkdir.c:113-122 | a mode is accepted exactly when every piece is the text of a clause |
| MkdirMode.ClassesExact | src/bin/mkdir/mkdir.c:40-43 | which classes the who letters name |
| MkdirMode.NamedExact | src/bin/mkdir/mkdir.c:40-45 | no who letter means all three classes |
| MkdirMode.ClassExact | src/bin/mkdir/mkdir.c:86-88 | which bit numbers the classes own for =: 11 and 8 to 6, 10 and 5 to 3, 9 and 2 to 0 |
| MkdirMode.BitsExact | src/bin/mkdir/mkdir.c:52-79 | a permission bit is collected exactly when its class is named and a letter asks for it; t needs no class |
| MkdirMode.AssignExact | src/bin/mkdir/mkdir.c:85-90 | after = the named classes have exactly the listed bits |
| MkdirMode.AddExact | src/bin/mkdir/mkdir.c:81-82 | after + a bit is set exactly when it was or is listed |
| MkdirMode.RemoveExact | src/bin/mkdir/mkdir.c:83-84 | after - a bit is set exactly when it was and is not listed |
| MkdirMode.ActionsExact | src/bin/mkdir/mkdir.c:47-94 | after a list of actions a bit is what the last of them that lists it, or assigns its class, says |
| MkdirMode.TokensExact | src/bin/mkdir/mkdir.c:113-122 | so it is after clauses in order, over the actions of all of them |
| MkdirMode.OneActionMode | src/bin/mkdir/mkdir.c:99-123 | the mode of who, operator and letters: from 0777, + adds the bits listed, - takes them away, = leaves the named classes with these alone |
| MkdirMode.OnlyNamedChange | src/bin/mkdir/mkdir.c:81-90 | a clause changes only bits of the classes it names, and the sticky bit if it mentions t |
| MkdirMode.WithinPermissions | src/bin/mkdir/mkdir.c:113-122 | an accepted mode stays within 07777 and touches no higher bit |
| MkdirMode.ThenApplies | src/bin/mkdir/mkdir.c:81-90 | changes applied in order compose to one change of the form m to (m and not off) or on |
| MkdirMode.ModeIdempotent | src/bin/mkdir/mkdir.c:113-122 | applying an accepted mode twice is applying it once |

## Left out

- Whether the pages chosen for the bitmap are themselves AVAILABLE RAM: the code checks only that they end below the highest available address.
- Interrupts in the middle of a call. `cli_save` and `sti_restore` around heap and capability operations make those atomic; in `yield` and `scheduler_start` atomicity is an assumption.
- Log lines and panic texts, port I/O, `invlpg`, the cursor and attribute registers of the console, and the polling loop and timeout of the clock calibration. `lcr3` is the moment from which the new tables decide what is in reach.
- The accessed and dirty bits that the processor itself sets in page-table entries; entries hold what the kernel stored.
- Kmalloc.KHeap.KFree: for NULL or word-aligned pointers into the heap window; a pointer elsewhere would read a header that is not the heap's. Where the tests pass although no block is, the code corrupts the list, which is not described.
- Kernel.Machine.Release: not for pointers to thread structures, which no code frees.
- PmmBoot.PmmBootstrap: for a highest address up to 4 GiB; of machines beyond, `PmmBoot.FreeBeyond` says what the two passes make free, not what the allocator then does.
- A framebuffer over the kernel's own pages, or whose pages are listed as available memory: excluded by hypothesis. Drawing on the framebuffer.
- The words of low memory and of the framebuffer as the kernel's code sees them: `KernelMemory` shows the kernel's pages at KERNBASE, the heap and the stacks.
- `captbl_create` and `captbl_destroy` beyond the empty table: a kmalloc and two kfrees. The table's `slots` and `capacity` are fields of an object, its slots words of the heap.
- The fields of `struct thread` other than `context`, and `struct task` and its lists: the structure is an allocation of the heap, `state` and `next` are fields of an object. User threads differ only in what the trampoline does first, and their pages and the tests in `main.c` after `kheap_init` are not followed.
- The return of a thread's function, the end of all threads, and other panics after which nothing runs.
- `vmm_unmap` and `vmm_extract`, which only forward.
- Path creation in `mkdir`, and what a rejected mode leaves in the output variable.
- Sorting, formatting, symbolic link and stat details of `ls`: a directory's entries come with what stat or lstat answered and in the order they are listed; the growing entry array of one directory is a sequence; the exit status is not followed.
- Allocation failure in `ls` and `mkdir`, which ends those programs.
- The other drivers, and the remaining file utilities.
