# DeltaOS: a verified model

DeltaOS is a small x86_64 kernel written in Rust.  This project models the parts of it that decide what is right and what
is wrong about memory, tasks and files, and proves properties of them for all inputs, all runs and all reachable states:

- **Page tables** (`Radix`, `Paging`, `Mapping`, `AddressSpace`, `IdentityMapping`, `IdentityRange`, `HugePages`,
  `HugePageOps`, `HugePageFlags`, `TablePermissions`, `Vmm`): four-level tables in flat physical memory, in the format of
  sections 4.5 and 4.6 of the Intel SDM, volume 3A, refine a plain map from pages to entries with a budget of tables.  The
  invariant is that the reachable tables form a tree.
- **Kernel heap** (`Heap`, `HeapRuns`, `HeapAlignment`, `HeapWords`, `HeapCases`, `SlabAllocator`): ten slab classes and a bump
  region on one offset.
- **Page allocator** (`Pmm`, `PmmRuns`, `PageAllocator`): a bitmap in bytes refines a set of pages with an exact count.
- **Scheduler** (`Signals`, `Sched`, `SchedInvariant`, `SchedRuns`, `SchedHalt`, `SchedSwitch`, `SchedStuck`, `SchedLists`,
  `SchedEffects`, `SchedFairness`, `SchedTicks`, `SchedContext`, `SchedCases`, `Scheduler`): priority round robin, the timer,
  signals and saved stack pointers as a state machine.
- **NTFS decoders** (`LittleEndian`, `RunList`, `RunParser`, `Tiling`, `Mft`, `MftFormat`, `MftBytes`, `MftCases`): run lists and
  file records as formats with an encoder.
- **Virtual file system** (`Paths`, `Vfs`, `VirtualFileSystem`): mounts, paths and descriptors.
- **Boot** (`Stacks`, `Boot`): where the pages of the allocator and the task stacks meet.

`Kernel` holds the error type and `Bits` the bitwise operations on natural numbers; a machine word is a natural number, and
its width is written out where the code depends on it.

Code that updates things in place is modelled twice.  A function on values says what an operation computes (`Heap.Alloc`,
`Sched.Preempt`, `Pmm.AllocPages`, `Vfs.Open` and so on), and the lemmas are about these functions.  A class with the source's
fields, arrays and loops (`SlabAllocator`, `PageAllocator`, `Vmm`, `Scheduler`, `VirtualFileSystem`) is then proved equal to
them, method by method.  In `Scheduler` the tasks are objects shared by the ready queue, the list of all tasks and the
current slot, as the `Arc<Mutex<Task>>` handles of the source are.

## What the proofs found

Each of these is stated with a case that shows it and with the exact condition under which the code does what it should.

- `map_page`, `unmap_page` and `update_flags` never look at the huge-page bit.  Inside a 2 MB or 1 GB page, and the boot tables
  are all 2 MB pages, they take the mapped memory for page tables.  `map_page` enters a page that is mapped already, unless the
  words it takes for entries happen to be present (`HugePageOps.MapPageWorksExactlyWhen`).  `unmap_page` never works there
  (`HugePageOps.UnmapPageWorksExactlyWhen`), and `update_flags` only where the page has the flags already and the word it
  overwrites changes nothing (`HugePageFlags.UpdateFlagsWorksExactlyWhen`).  On the boot tables each may report success,
  overwrites a word of the mapped memory and changes no translation (`HugePageOps.BootMapPageFails`,
  `HugePageOps.BootUnmapPageFails`, `HugePageOps.BootUpdateFlagsFails`).
- The boot code clears four pages from each of its three tables on, not one: 12 KB of the 16 KB boot stack, all but the page with
  the return address (`HugePages.SetupPageTables`, `HugePages.StackTopSpared`).
- The entries that `map_page` writes for new tables do not have the user bit, so from an empty PML4 on no page that it maps can
  be used in user mode, whatever flags it is given (`TablePermissions.NeverUserAccessible`); writing is decided by the page's
  own entry (`TablePermissions.WritableIff`).
- A slab request on a class that has reached 1024 blocks answers null and still uses up a page (`HeapRuns.NullCostsAPage`); after
  1024 requests for one byte every further one does, until the heap is used up (`HeapCases.NullAfterInit`,
  `HeapCases.NullsUseUpTheHeap`).
- After a large request leaves the bump offset off a page boundary, page-aligned requests get misaligned pointers
  (`HeapAlignment.StepAlignedIff`, `HeapAlignment.AlignmentFails`).
- With more than 64 GB the page allocator counts pages as free for which its bitmap has no bit, and never hands them out
  (`PmmRuns.NewMeaning`, `PmmRuns.LargeMemoryMiscounted`, `PmmRuns.NeverHanded`).
- A tick that kills or stops the current task leaves it current (`SchedInvariant.TickKeepsWf`).  Ticks alone bring it back to work
  only if it is marked stopped and a SIGCONT is due, and otherwise never switch away from it (`SchedHalt.TicksNeverSwitch`,
  `SchedCases.KilledTaskWorks`).
- A terminated task does not stay so while it is current: `preempt_schedule`, `block_current`, and ticks that deliver it a SIGTSTP
  or continue it revive it; and `bg` revives any that was stopped before (`SchedRuns.DeadStaysDeadIff`,
  `SchedCases.KilledTaskWorks`, `SchedCases.StoppedTaskRevived`).
- `schedule`, and everything that ends in it, saves no stack pointer.  A task that it took off the processor is resumed by
  `preempt_schedule` on the pointer of its last preemption, or on its first one (`SchedContext.ResumesWhereItLeftIff`,
  `SchedCases.RestartsFromScratch`).
- `preempt_schedule` counts a switch even when it returns to the task it took off, which is when every waiting task has a lower
  priority (`SchedContext.PreemptCountsIff`, `SchedCases.CountsSwitchToItself`).
- Eight-byte negative run offsets other than -1 are read as -1: the shift by 64 is taken modulo 64 in a release build
  (`RunList.OffsetCorrectIff`, `RunParser.EightByteOffsetLost`).
- A non-resident attribute whose list of runs starts after its end stops the kernel with a slice panic (`Mft.PanicsIff`,
  `MftCases.BadRecordPanics`).
- A mount is chosen by its characters, not by whole names: `/mnt` takes in `/mntx/f` (`Vfs.ResolvesComponentsIff`,
  `Vfs.MountTakesLongerName`).
- 4 MB are reserved for task stacks but stacks are taken from 22 MB: from the 65th on they overlap pages that the page
  allocator hands out (`Boot.EarlyStacksSafe`, `Boot.LateStackShared`).

Where comments in the source and the code disagree the model follows the code: `fg` is described as resuming a stopped task,
but the field it tests was overwritten on the line before; `preempt_schedule` says that it restores the current task when
there is none to switch to, but that task also stays in the queue (`SchedStuck.PreemptStuck`).

## Model

| member | source | states |
|---|---|---|
| Paging.SamePageSameWalk | src/memory/vmm.rs:116-119 | two addresses walk the same four table indices exactly when their bits 12 to 47 agree |
| Paging.TranslateIsLookup | src/memory/vmm.rs:199-244 | `translate` with its three huge-page tests gives, for every address and every memory, the leaf that a plain radix-tree lookup finds plus the offset inside a leaf of that depth |
| Radix.Graft | src/memory/vmm.rs:119-148 | hanging a new page from an empty entry of a tree without shared tables adds one table, changes no walk elsewhere, and below it finds what the page holds |
| Radix.LeafWrite | src/memory/vmm.rs:150-156 | in a tree without shared tables, writing a word of a last-level table changes one leaf and no table |
| Mapping.TableEntryPoints | src/memory/vmm.rs:122-128 | the word written for a new table decodes to a pointer to exactly that table at every level |
| Mapping.LeafEntry | src/memory/vmm.rs:150-156 | a leaf made of an aligned address and flags keeps the frame bits of the address and is present exactly when the flags are |
| Mapping.DescendKeepsTree | src/memory/vmm.rs:119-128 | one level of `map_page` keeps the tree and every translation, and takes at most one table from the pool, exactly when the entry is empty |
| Mapping.GrowKeepsTree | src/memory/vmm.rs:119-148 | the three levels of `map_page` keep the tree and every translation; they succeed exactly when the pool holds the tables that are missing, and use up just those |
| Mapping.MapPageRefines | src/memory/vmm.rs:101-157 | which of the four answers `map_page` gives, decided on the abstract map and the pool alone; on success only that page's leaf changes, on failure no leaf does |
| Mapping.UnmapPageRefines | src/memory/vmm.rs:159-197 | `unmap_page` succeeds exactly on a mapped page, answers its frame, and removes that leaf and no other |
| Mapping.UpdateFlagsRefines | src/memory/vmm.rs:271-309 | `update_flags` succeeds exactly on a mapped page, keeps its frame, and changes no other leaf |
| AddressSpace.MapPageTranslates | src/memory/vmm.rs:101-157 | after `map_page` every address of the page translates to frame plus offset and every other address as before; after a failure all translate as before |
| AddressSpace.UnmapPageTranslates | src/memory/vmm.rs:159-197 | `unmap_page` removes the translation of one page and no other, and returns what it was |
| AddressSpace.UpdateFlagsTranslates | src/memory/vmm.rs:271-309 | `update_flags` keeps every translation, unless the new flags lack PRESENT: then it removes that page's and no other |
| AddressSpace.UnmapUndoesMap | src/memory/vmm.rs:101-197 | `unmap_page` after `map_page` returns the mapped address and restores every translation |
| AddressSpace.FrameKept | src/memory/vmm.rs:62 | an aligned physical address is stored unchanged exactly when it is below 2^52 |
| AddressSpace.AddAllMeaning | src/memory/vmm.rs:119-148 | on the reference, mapping a page adds exactly the tables that its walk lacks, or uses up the whole budget; tables and budget left add up to the same |
| AddressSpace.GrowRefines | src/memory/vmm.rs:119-148 | the levels that `map_page` adds in memory, also when it fails half way, are the prefixes that the reference adds, and the pool shrinks with its budget |
| AddressSpace.StepRefines | src/memory/vmm.rs:101-309 | every operation gives the answer, OutOfMemory included, and the new state, of a reference made of a map of pages, a set of prefixes that have tables, and a budget |
| AddressSpace.RunRefines | src/memory/vmm.rs:101-309 | so does every run of operations: the sequences of answers are equal |
| AddressSpace.RunPoolExact | src/memory/vmm.rs:66-67 | over every run the tables taken from the pool are exactly the tables that hang in the tree |
| AddressSpace.EveryRunFromEmpty | src/memory/vmm.rs:66-67 | over every run from an empty PML4 the answers are those of the reference with a budget of 256, the final tables represent its state, no pool page leaks or is used twice, and tables and pages left add up to 256 |
| TablePermissions.WritableIff | src/memory/vmm.rs:101-157 | over every run from an empty PML4 a page may be written, by the rule that every entry on the walk must permit it, exactly when it is mapped and its own entry permits it |
| TablePermissions.NeverUserAccessible | src/memory/vmm.rs:119-141 | over every such run no page may be used in user mode, whatever flags it was mapped with |
| IdentityMapping.RoundsDown | src/memory/vmm.rs:247 | the mask with !(PAGE_SIZE - 1) rounds down to the page, in every width of at least 12 bits |
| IdentityMapping.IdentityMapTranslates | src/memory/vmm.rs:246-253 | `identity_map` that succeeds translates every address of the range to itself; whatever its outcome, what was translated before is translated the same |
| IdentityRange.IdentityMapElsewhere | src/memory/vmm.rs:246-253 | whatever its outcome, every address off the range is translated, or not, as before |
| IdentityRange.IdentityMapSucceedsIff | src/memory/vmm.rs:246-253 | it succeeds exactly when the range is at most 2^48 bytes long, no page of it is mapped, and the pool holds the tables that its pages lack |
| HugePages.SplitKeepsTranslations | src/memory/vmm.rs:199-244 | replacing a 2 MB or 1 GB leaf by a table of 512 leaves of the next size keeps the translation of every address |
| HugePages.GiantExpansion | src/memory/vmm.rs:199-244 | an address through the leaf of a 1 GB page is the same address through the 4 KB page of its number in it |
| HugePages.ExpansionTranslates | src/memory/vmm.rs:199-244 | expanding a 1 GB page into 2 MB pages and one of these into 4 KB pages keeps the translation of every address |
| HugePages.ExpansionEntries | src/memory/vmm.rs:199-244 | each page of that part then has an entry of its own, with the frame of its number in the 1 GB page |
| HugePages.BootTranslates | boot/boot.asm:123-140 | the boot tables translate every address below 2^30 to itself and no other address below 2^48 |
| HugePages.BootIsTree | boot/boot.asm:123-140 | the boot tables satisfy the tree invariant, with exactly three tables |
| HugePages.SetupPageTables | boot/boot.asm:107-142 | whatever memory held before, the clearing loops and the loop over the entries leave the boot tables, in whatever three distinct pages, and change nothing outside the pages cleared |
| HugePages.StackTopSpared | boot/boot.asm:29-39 | of the stack that follows the tables the clearing spares exactly the last page |
| HugePageOps.MapPageWorksExactlyWhen | src/memory/vmm.rs:101-157 | on every tree, with 4 KB, 2 MB and 1 GB pages: `map_page` answers and changes translations as promised exactly when the address is not aligned, or the page is not inside a huge page, or the words it takes for entries are present |
| HugePageOps.UnmapPageWorksExactlyWhen | src/memory/vmm.rs:159-197 | `unmap_page` removes the translation of the one page and answers it exactly when the address is not aligned or the page is not inside a huge page |
| HugePageFlags.UpdateFlagsWorksExactlyWhen | src/memory/vmm.rs:271-309 | on every tree: `update_flags` gives the flags to the one page and changes nothing else exactly when the address is not aligned, or the page is not inside a huge page, or it has the flags already and every address below the word that is overwritten reads already as through the new word |
| HugePageOps.MapPageUnderLarge | src/memory/vmm.rs:119-157 | inside a 2 MB page whose memory holds no table `map_page` changes no translation; where it reports success it has overwritten a word of the mapped memory |
| HugePageOps.UnmapPageUnderLarge | src/memory/vmm.rs:159-197 | `unmap_page` there changes no translation, answers a frame read from the mapped memory, and clears the word |
| HugePageOps.UpdateFlagsUnderLarge | src/memory/vmm.rs:271-309 | `update_flags` there changes no translation and overwrites a word of the mapped memory |
| HugePageOps.MapPageUnderGiant | src/memory/vmm.rs:119-157 | inside a 1 GB page `map_page` follows a word of the mapped memory that is present and writes wherever it leads; from one that is not it hangs a page of the pool, if there is one, and enters the page in it, out of reach of every translation |
| HugePageOps.BootMapPageFails | src/memory/vmm.rs:101-157 | on the boot tables mapping page 0 anywhere reports success, page 0 still translates to itself, and the first word of physical memory is overwritten |
| HugePageOps.BootUnmapPageFails | src/memory/vmm.rs:159-197 | on the boot tables unmapping page 0 leaves it translated; it answers that the page is not mapped, or a frame read from the first word of physical memory, which it clears |
| HugePageOps.BootUpdateFlagsFails | src/memory/vmm.rs:271-309 | on the boot tables taking PRESENT from page 0 leaves it translated; it answers that the page is not mapped, or overwrites the first word of physical memory |
| Vmm.Vmm.AllocPageTable | src/memory/vmm.rs:255-265 | advances NEXT_PAGE_ADDR and clears the page in place, as the model function does |
| Vmm.Vmm.MapPage | src/memory/vmm.rs:101-157 | the walk in place, with its early returns, leaves memory and pool as `Mapping.MapPage` does and gives its answer |
| Vmm.Vmm.UnmapPage | src/memory/vmm.rs:159-197 | the same for `unmap_page` |
| Vmm.Vmm.UpdateFlags | src/memory/vmm.rs:271-309 | the same for `update_flags` |
| Vmm.Vmm.IdentityMap | src/memory/vmm.rs:246-253 | the loop stops at the first error and leaves what it mapped |
| Heap.ClassMeaning | src/memory/heap.rs:94-105 | `find_slab_class` finds the smallest class that holds the size, and none exactly for 0 and sizes above 4096 |
| Heap.ClassOfBounds | src/memory/heap.rs:173-181 | the class chosen for a layout has blocks at least as large as its size and its alignment |
| Heap.AlignUpByMask | src/memory/heap.rs:144-145 | the mask expression of `alloc_bump` is the least multiple of the alignment at or above the offset |
| HeapRuns.AllocFromSlabKeepsInv | src/memory/heap.rs:107-141 | `alloc_from_slab` keeps the invariant and hands out a block that is not live; it answers null exactly when the list is empty and no page is left or the class is full |
| HeapRuns.AllocBumpKeepsInv | src/memory/heap.rs:143-154 | `alloc_bump` keeps the invariant, hands out bytes apart from every other block, and fails exactly when they do not fit |
| HeapRuns.AllocKeepsInv | src/memory/heap.rs:169-185 | `alloc`, on either path, keeps the invariant and never hands out a live pointer |
| HeapRuns.RoomToFree | src/memory/heap.rs:156-166 | the free list of a live block's class has room, so `free_to_slab` never drops a block |
| HeapRuns.DeallocKeepsInv | src/memory/heap.rs:187-196 | `dealloc` of a live pointer with its layout keeps the invariant |
| HeapRuns.NullCostsAPage | src/memory/heap.rs:107-141 | a null answer leaves the heap unchanged exactly when no page was left; at the block limit it uses up a page |
| HeapRuns.InitInv | src/memory/heap.rs:60-92 | the heap that `init` makes satisfies the invariant exactly when its ten pages fit |
| HeapRuns.RunKeepsInv | src/memory/heap.rs:60-196 | the invariant holds in every state of every run of requests and returns |
| HeapRuns.EveryRun | src/memory/heap.rs:60-196 | over every run live blocks lie in the heap and are pairwise disjoint, each class's free and live blocks add up to its total of at most 1024, and no free list holds an address twice |
| HeapAlignment.CarvedAlignedExactlyWhen | src/memory/heap.rs:118-133 | a request that carves a page gets an aligned block exactly when the page starts aligned |
| HeapAlignment.StepAlignedIff | src/memory/heap.rs:107-196 | from a heap whose blocks are all aligned an operation leaves them so exactly when a large block starts on an aligned heap base and a carved page on a multiple of the block size |
| HeapAlignment.RunAlignedIff | src/memory/heap.rs:107-196 | over every run all blocks are aligned up to a state exactly when every operation before it was of that kind |
| HeapAlignment.InitAligned | src/memory/heap.rs:60-92 | `init` on an aligned base makes every free block aligned to its size |
| HeapAlignment.AlignmentFails | src/memory/heap.rs:60-154 | from `init` on an aligned base, a request for 5000 bytes and two for a page give a pointer at 904 modulo 4096 |
| HeapCases.NullsUseUpTheHeap | src/memory/heap.rs:107-141 | once a class has handed out 1024 blocks every request for it answers null and uses up one more page |
| HeapCases.NullAfterInit | src/memory/heap.rs:60-141 | from `init`, after 1024 requests for one byte the next answers null and moves the bump offset from page 11 to page 12 |
| HeapWords.AlignWordMeaning | src/memory/heap.rs:144 | on 64-bit words the mask expression gives the next multiple of the alignment modulo 2^64 |
| HeapWords.AllocBumpExactIff | src/memory/heap.rs:143-154 | on 64-bit words `alloc_bump` answers as on numbers exactly when no sum wraps, or one does and what is left is still beyond the heap |
| HeapWords.AllocNeverWraps | src/memory/heap.rs:169-185 | on a heap below 2^62 bytes that ends by 2^64 no layout that Rust allows makes `alloc` wrap |
| SlabAllocator.SlabClass.AddPage | src/memory/heap.rs:122-133 | the loop writes the blocks of a page into the free-list array and counts them |
| SlabAllocator.SlabAllocator.constructor | src/memory/heap.rs:42-57 | ten classes with block sizes 8 to 4096, none sharing an array with another |
| SlabAllocator.SlabAllocator.Init | src/memory/heap.rs:60-92 | the loop makes the heap of `HeapRuns.InitHeap`, once |
| SlabAllocator.SlabAllocator.FindSlabClass | src/memory/heap.rs:94-105 | the search loop finds the class of `Heap.FindSlabClass` |
| SlabAllocator.SlabAllocator.AllocFromSlab | src/memory/heap.rs:107-141 | arrays, counters and bump offset change as `Heap.AllocFromSlab` says |
| SlabAllocator.SlabAllocator.AllocBump | src/memory/heap.rs:143-154 | the same for `alloc_bump`, through the mask expression and with sums modulo 2^64, as `HeapWords.AllocBumpWord` says |
| SlabAllocator.SlabAllocator.FreeToSlab | src/memory/heap.rs:156-166 | the same for `free_to_slab` |
| SlabAllocator.SlabAllocator.Alloc | src/memory/heap.rs:169-185 | the same for `alloc`, as `HeapWords.AllocWord` says |
| SlabAllocator.SlabAllocator.Dealloc | src/memory/heap.rs:187-196 | the same for `dealloc`: a block of the bump region is never given back |
| Pmm.AllocPageMeaning | src/memory/pmm.rs:45-63 | `alloc_page` succeeds exactly when the count is positive, gives the lowest free page, and keeps the count exact |
| Pmm.AllocPagesMeaning | src/memory/pmm.rs:65-98 | `alloc_pages` of at least one page succeeds exactly when that many consecutive pages are free, takes the leftmost such run and nothing else, and keeps the count exact |
| Pmm.FreePageMeaning | src/memory/pmm.rs:100-116 | `free_page` succeeds exactly on the start of a used page and frees that page only; its three errors are outside the memory, between page starts, and on an unused page |
| Pmm.FreeRangeMeaning | src/memory/pmm.rs:118-124 | freeing a range of used pages clears just these and adds their number to the count |
| Pmm.FreeRangeStops | src/memory/pmm.rs:118-124 | freeing a range stops at the first page that is not used or past the end, with the error for that page, and what was freed before stays freed |
| Pmm.FreeUndoesAlloc | src/memory/pmm.rs:65-124 | `free_pages_range` of what `alloc_pages` gave restores bits and count exactly |
| Pmm.ReserveMeaning | src/memory/pmm.rs:173-191 | `reserve_range` marks the pages of the range below the total, keeps the count exact, and its saturating subtraction never saturates |
| Pmm.ReservedCovers | src/memory/pmm.rs:173-191 | the pages marked are exactly those that share a byte with the range |
| Pmm.ReserveIdempotent | src/memory/pmm.rs:173-191 | reserving a range twice is reserving it once |
| Pmm.ReserveCommutes | src/memory/pmm.rs:173-191 | the order of two reservations does not matter |
| PmmRuns.NewMeaning | src/memory/pmm.rs:17-43 | `new` marks the bitmap's own pages; pages without a bit read as used; and the count is exact exactly when memory is at most 64 GB |
| PmmRuns.NewMarks | src/memory/pmm.rs:17-43 | on memory that starts on a page the pages marked at first are exactly those of the 2 MB of the bitmap and those beyond 64 GB |
| PmmRuns.LargeMemoryMiscounted | src/memory/pmm.rs:17-43 | with one page more than 64 GB the count is wrong |
| PmmRuns.NeverHanded | src/memory/pmm.rs:17-191 | over every run on memory of any size no page beyond 64 GB and no page of the bitmap is handed out |
| PmmRuns.StepGuarded | src/memory/pmm.rs:45-191 | each operation of a caller that frees only what it was given keeps the count exact and every protected page marked |
| PmmRuns.EveryRun | src/memory/pmm.rs:45-191 | over every such run the count is the number of clear bits, and what is handed out is held by nobody and was free at the start |
| PmmRuns.BootReserved | src/lib.rs:864-875 | after the boot reservations every page below 0xE00000 is marked |
| PmmRuns.HandedAboveBoot | src/lib.rs:864-875 | over every run from boot every page handed out starts at or above 0xE00000 |
| PageAllocator.SetBitMeaning | src/memory/pmm.rs:136-143 | the shift and mask on one byte set one bit of the bitmap and no other |
| PageAllocator.ClearBitMeaning | src/memory/pmm.rs:145-151 | the shift and mask on one byte clear one bit of the bitmap and no other |
| PageAllocator.PageAllocator.constructor | src/memory/pmm.rs:17-43 | for every size of memory: zeroes the bitmap, marks its own pages and counts, as `PmmRuns.New` says |
| PageAllocator.PageAllocator.GetBit | src/memory/pmm.rs:126-134 | reads the bit of the page; an index past the bitmap reads as used |
| PageAllocator.PageAllocator.AllocPage | src/memory/pmm.rs:45-63 | the scan over the bitmap gives the answer and the set of pages of `Pmm.AllocPage` |
| PageAllocator.PageAllocator.FindRun | src/memory/pmm.rs:72-88 | the loop with its start and its count of consecutive clear bits finds the leftmost free run |
| PageAllocator.PageAllocator.AllocPages | src/memory/pmm.rs:65-98 | the bitmap changes as `Pmm.AllocPages` says |
| PageAllocator.PageAllocator.FreePage | src/memory/pmm.rs:100-116 | the bitmap changes as `Pmm.FreePage` says |
| PageAllocator.PageAllocator.FreePagesRange | src/memory/pmm.rs:118-124 | the loop stops at the first error and keeps what it freed |
| PageAllocator.PageAllocator.ReserveRange | src/memory/pmm.rs:173-191 | the loop marks what `Pmm.Reserve` marks |
| Signals.SendIsInsert | src/sched/task.rs:375-379 | `send_signal` inserts a signal below 32 into the set the mask stands for, and ignores any other |
| Signals.PopIsRemoveLeast | src/sched/task.rs:391-399 | `pop_signal` removes and returns the least pending signal that is not blocked, and answers none exactly when there is none |
| Signals.StepRefines | src/sched/task.rs:375-399 | each of the two behaves as insert or remove-least on a set |
| Signals.RunRefines | src/sched/task.rs:375-399 | so does every sequence of them, with the same answers and the same set left |
| Signals.RefRunUnique | src/sched/task.rs:375-399 | and the set admits no other answers |
| Signals.DrainMeaning | src/sched/task.rs:391-399 | popping until none is left yields exactly the pending unblocked signals, ascending, and leaves the blocked ones |
| SchedInvariant.PickFindsBest | src/sched/scheduler.rs:251-273 | on a queue of ready tasks the choice is the first of the highest priority |
| SchedInvariant.ScheduleKeepsWf | src/sched/scheduler.rs:209-248 | `schedule` keeps the invariant: the queue has no duplicates and holds exactly the ready tasks, and the current task is the only running one |
| SchedInvariant.PreemptKeepsWf | src/sched/scheduler.rs:304-346 | `preempt_schedule` keeps the invariant |
| SchedInvariant.TickKeepsWf | src/sched/scheduler.rs:146-205 | `tick` keeps the invariant exactly when the signal it takes does not kill or stop the current task; what it does without one is in `SchedSwitch.TickWithoutCurrent` |
| SchedInvariant.BlockCurrentKeepsWf | src/sched/scheduler.rs:351-357 | `block_current` alone keeps the invariant exactly when there is no current task |
| SchedInvariant.BlockThenScheduleKeepsWf | src/sched/scheduler.rs:209-357 | followed by `schedule` it does exactly when no task is current or the queue is not empty |
| SchedInvariant.UnblockKeepsWf | src/sched/scheduler.rs:360-372 | `unblock_task` keeps the invariant; its answer and effect are in `SchedEffects.AnswersIff` |
| SchedInvariant.TerminateCurrentKeepsWf | src/sched/scheduler.rs:375-383 | `terminate_current` keeps the invariant exactly when no task is current or another one is queued |
| SchedInvariant.TerminateTaskKeepsWf | src/sched/scheduler.rs:386-407 | `terminate_task` keeps the invariant exactly when it does not kill the current task; its answer and effect are in `SchedEffects.AnswersIff` |
| SchedInvariant.SendSignalKeepsWf | src/sched/scheduler.rs:410-419 | `send_signal` keeps the invariant |
| SchedInvariant.ToForegroundKeepsWf | src/sched/scheduler.rs:442-461 | `foreground_task` keeps the invariant |
| SchedInvariant.ToBackgroundKeepsWf | src/sched/scheduler.rs:422-439 | `background_task` keeps the invariant exactly when it does not resume a task that is ready or running |
| SchedInvariant.CleanupKeepsWf | src/sched/scheduler.rs:549-561 | `cleanup_terminated` keeps the invariant; what it removes is in `SchedLists.CleanupMeaning` |
| SchedInvariant.CreateKeepsWf | src/sched/scheduler.rs:70-142 | task creation keeps the invariant |
| SchedRuns.StepKeepsWfIffSafe | src/sched/scheduler.rs:70-561 | from a well-formed state each of the fifteen operations ends in a well-formed state exactly when a test on the state before says so |
| SchedRuns.DeadStaysDeadIff | src/sched/scheduler.rs:70-561 | in every state, well formed or not, a terminated task stays terminated through an operation exactly when the operation is not `bg` on it while it is marked stopped and, if it is current, does not block it, preempt it, or deliver it a SIGTSTP or the SIGCONT that continues it |
| SchedRuns.OnlyBgRevives | src/sched/scheduler.rs:70-561 | in a well-formed state only `bg` on a task marked stopped revives it |
| SchedRuns.RunKeepsWf | src/sched/scheduler.rs:70-561 | over every safe run the invariant holds in every state |
| SchedRuns.EmptyWf | src/sched/scheduler.rs:55-67 | the new scheduler is well formed |
| SchedRuns.DeadForever | src/sched/scheduler.rs:209-561 | over every safe run a terminated task is never queued or current again |
| SchedHalt.StepKeepsGoodIffTame | src/sched/scheduler.rs:70-561 | from a state that is well formed, or so but for a halted current task, each operation ends in such a state exactly when it neither queues a task that is queued or current nor drops a current one |
| SchedHalt.RunKeepsGood | src/sched/scheduler.rs:70-561 | over every run of such operations, with current tasks killed, stopped or blocked, every state is one of the two |
| SchedHalt.DeadUntilRevived | src/sched/scheduler.rs:70-561 | over every such run a terminated task that no operation revives stays terminated and off the queue, and never returns to the processor once it is off it |
| SchedHalt.TicksHoldExactly | src/sched/scheduler.rs:154-189 | with a halted current task the number of ticks that leave it as it is: all, unless it is marked stopped with a SIGCONT due; then as many as there are signals due before |
| SchedHalt.TicksNeverSwitch | src/sched/scheduler.rs:154-189 | ticks alone bring a halted current task back to work exactly when it is marked stopped and a SIGCONT is due; otherwise no number of them switches away from it or changes the queue |
| SchedHalt.PreemptRevives | src/sched/scheduler.rs:310-317 | `preempt_schedule` on a terminated current task makes it ready or running |
| SchedHalt.KillUndone | src/sched/scheduler.rs:161-167 | a current task that a tick killed stays current and is alive again after the next `preempt_schedule` |
| SchedSwitch.StepChooses | src/sched/scheduler.rs:146-383 | from a state that is well formed, or so but for a halted current task, whenever an operation makes the scheduler choose, the first task of the highest priority among the waiting ones, with the current one behind them if it goes back, is current and running afterwards, the others wait in their order, and with none to choose from nothing is taken; when an operation does so is said on the state before |
| SchedSwitch.TickWithoutCurrent | src/sched/scheduler.rs:146-205 | with preemption on and no current task a tick starts the first waiting task of the highest priority exactly when a switch was asked for, counts that as a switch and changes no other task; otherwise only the tick is counted |
| SchedStuck.PickIff | src/sched/scheduler.rs:251-273 | in every state, well formed or not, exactly which task is taken: the first ready one of the highest priority if that is above the lowest, otherwise the first of the queue if it is ready, otherwise none |
| SchedStuck.PreemptStuck | src/sched/scheduler.rs:304-346 | in every state: with preemption off `preempt_schedule` does nothing; with it on it takes a task and counts a switch exactly when one can be taken; otherwise it returns the pointer given, and the current task runs on with a full slice and is queued as well |
| SchedEffects.AnswersIff | src/sched/scheduler.rs:360-461 | `unblock_task`, `terminate_task`, `send_signal`, `background_task` and `foreground_task`: which of success, denied access and invalid argument is answered, exactly, on the state before; an error changes nothing; success means that the task named, and no other, is ready and last in the queue, terminated with its code and off the queue, and so on |
| SchedEffects.AsksIff | src/sched/scheduler.rs:70-561 | for each of the fifteen operations exactly when a switch is asked for afterwards, on the state before |
| SchedEffects.OtherwiseQueueKept | src/sched/scheduler.rs:70-561 | an operation that makes no choice leaves the current task; a new, unblocked or resumed task goes to the back of the queue; a kill and a cleanup keep the order of the others |
| SchedEffects.StepLists | src/sched/scheduler.rs:70-561 | tasks are listed in the order of their creation, under ids that count up, until they are cleaned up; no operation but its own turns preemption on or off |
| SchedEffects.StepStates | src/sched/scheduler.rs:70-561 | the state of every task after each operation, from the state before and the choice made |
| SchedLists.WithoutKept | src/sched/scheduler.rs:401 | `retain` keeps every other element, in its order |
| SchedLists.CleanupMeaning | src/sched/scheduler.rs:549-561 | after `cleanup_terminated` a task is listed exactly when it was and is not terminated, and queued exactly when it was and is not such a task; the order of the rest is kept and nothing else changes |
| SchedCases.KilledTaskWorks | src/sched/scheduler.rs:55-346 | from the empty scheduler: a task is created, runs and is killed by a tick; no number of ticks switches away from it, and it works again after `preempt_schedule` |
| SchedCases.CountsSwitchToItself | src/sched/scheduler.rs:304-346 | with one task `preempt_schedule` counts a switch and returns to the same task |
| SchedCases.StoppedTaskRevived | src/sched/scheduler.rs:55-439 | from the empty scheduler: a task is stopped, then killed, another runs, and `bg` queues the first again, in a well-formed state |
| SchedCases.RestartsFromScratch | src/sched/scheduler.rs:209-346 | from the empty scheduler: two tasks are created, `schedule` runs both in turn, and `preempt_schedule` resumes the first on the pointer it was created with |
| SchedFairness.ScheduleTurns | src/sched/scheduler.rs:209-273 | `schedule` turns the ring of the highest-priority tasks by one place and keeps their order |
| SchedFairness.PreemptTurns | src/sched/scheduler.rs:304-346 | so does `preempt_schedule` |
| SchedFairness.RoundRobin | src/sched/scheduler.rs:209-346 | over every run of scheduling steps the task at place k modulo n of the first ring is current at step k |
| SchedFairness.WaitingTaskRuns | src/sched/scheduler.rs:209-346 | the task at place r among the waiting ones of the highest priority runs at step r + 1 |
| SchedFairness.OnlyTopRuns | src/sched/scheduler.rs:250-273 | no task of a lower priority is picked |
| SchedFairness.OncePerRound | src/sched/scheduler.rs:209-346 | in any n successive steps of a ring of n tasks none runs twice |
| SchedTicks.TickOutcome | src/sched/scheduler.rs:146-205 | a tick without signals turns the ring exactly when a switch was asked for or the slice has one tick left, and otherwise charges the current task one tick |
| SchedTicks.QuantumEnds | src/sched/scheduler.rs:191-205 | driven by ticks alone the current task is switched out within its slice |
| SchedTicks.BoundedWait | src/sched/scheduler.rs:146-273 | driven by ticks alone the task at place r of the waiting ones runs within the slices of the current task and of those ahead of it |
| SchedContext.StepRecord | src/sched/scheduler.rs:70-561 | what each operation does to one task's saved pointer, charged ticks, slice, exit code, signals and foreground state, told without the queue and the other tasks |
| SchedContext.RunKeeps | src/sched/scheduler.rs:70-561 | in every run, safe or not, a task's priority and quantum never change, the ticks charged to it are as many as found it running, its exit code is that of the last exit or kill, and its saved pointer that of its last preemption |
| SchedContext.TaskLife | src/sched/scheduler.rs:70-561 | so from its creation on: priority and pointer as made, no ticks and exit code 0 at first |
| SchedContext.PreemptReturnsSaved | src/sched/scheduler.rs:319-346 | the pointer returned is the one saved for the task that is current afterwards |
| SchedContext.StepCounts | src/sched/scheduler.rs:146-248 | ticks are counted and nothing else is; a switch is counted exactly when another task becomes current |
| SchedContext.PreemptCountsIff | src/sched/scheduler.rs:319-335 | whether the current task runs or is halted, `preempt_schedule` counts switches exactly, unless it is enabled and every waiting task has a lower priority than the current one: then it counts a switch to the same task |
| SchedContext.ResumesFrom | src/sched/scheduler.rs:304-346 | a task that has been off the processor since some state resumes on the pointer saved for it then; one that never ran starts on the pointer it was made with |
| SchedContext.ResumesWhereItLeftIff | src/sched/scheduler.rs:209-346 | a task that left the processor and is put on again by `preempt_schedule` resumes where it left exactly when it left through `preempt_schedule`, or its pointer was the one it came with |
| Scheduler.Tcb.PopSignal | src/sched/task.rs:391-399 | the mask in place changes as `Signals.Pop` says |
| Scheduler.Tcb.TakeSignal | src/sched/scheduler.rs:157-184 | the signal part of `tick` on a task object, and whether it ends the tick |
| Scheduler.Scheduler.Touched | src/sched/scheduler.rs:42-52 | a change of one task object is a change of one entry of the scheduler's value, through whichever handle it was made |
| Scheduler.Scheduler.CreateTask | src/sched/scheduler.rs:70-142 | the new object is queued and listed under a new id |
| Scheduler.Scheduler.FindBest | src/sched/scheduler.rs:256-266 | the loop over the queue computes the choice of `Sched.Scan` |
| Scheduler.Scheduler.PickNextTask | src/sched/scheduler.rs:251-273 | the chosen object leaves the queue, or nothing changes |
| Scheduler.Scheduler.Schedule | src/sched/scheduler.rs:209-248 | queue, current slot, task objects and counters change as `Sched.Schedule` says |
| Scheduler.Scheduler.Tick | src/sched/scheduler.rs:146-205 | the same for `tick` |
| Scheduler.Scheduler.PreemptSchedule | src/sched/scheduler.rs:304-346 | the same for `preempt_schedule`, with the pointer it returns |
| Scheduler.Scheduler.Find | src/sched/scheduler.rs:411-418 | the search by id finds the one object with that id, exactly when it is listed |
| Scheduler.Scheduler.BlockCurrent | src/sched/scheduler.rs:351-357 | the objects change as `Sched.BlockCurrent` says |
| Scheduler.Scheduler.UnblockTask | src/sched/scheduler.rs:360-372 | the objects change as `Sched.Unblock` says |
| Scheduler.Scheduler.TerminateCurrent | src/sched/scheduler.rs:375-383 | the objects change as `Sched.TerminateCurrent` says |
| Scheduler.Scheduler.TerminateTask | src/sched/scheduler.rs:386-407 | the objects change as `Sched.TerminateTask` says |
| Scheduler.Scheduler.SendSignal | src/sched/scheduler.rs:410-419 | the objects change as `Sched.SendSignal` says |
| Scheduler.Scheduler.BackgroundTask | src/sched/scheduler.rs:422-439 | the objects change as `Sched.ToBackground` says |
| Scheduler.Scheduler.ForegroundTask | src/sched/scheduler.rs:442-461 | the objects change as `Sched.ToForeground` says |
| Scheduler.Scheduler.YieldCurrent | src/sched/scheduler.rs:464-467 | the objects change as `Sched.Yield` says |
| Scheduler.CollectDead | src/sched/scheduler.rs:550-554 | the loop collects the ids of exactly the terminated tasks, in order |
| Scheduler.Retain | src/sched/scheduler.rs:557-558 | keeps the objects with another id, in order |
| Scheduler.Scheduler.CleanupTerminated | src/sched/scheduler.rs:549-561 | the loops remove every terminated task from both lists, as `Sched.Cleanup` says |
| LittleEndian.ValueOfDigits | src/fs/ntfs.rs:616-619 | the bytes of a number that fits are read back as the number |
| LittleEndian.DigitsOfValue | src/fs/ntfs.rs:616-619 | bytes are the digits of the number they are read as |
| RunList.GatherIsValue | src/fs/ntfs.rs:616-619 | the loop of shifts and ors over up to eight bytes computes their little-endian value |
| RunList.LengthCorrectIff | src/fs/ntfs.rs:609-620 | for every width a header can hold, the length read is the value of its bytes exactly when that fits in 64 bits |
| RunList.OffsetCorrectIff | src/fs/ntfs.rs:631-638 | for every width a header can hold, the offset read is the two's complement value of its bytes exactly when there are at most seven, or the value is a non-negative `i64`, or it is -1 |
| RunParser.SplitExplains | src/fs/ntfs.rs:598-644 | the runs found, put together again, are the data up to the point where no complete run follows |
| RunParser.StopsIff | src/fs/ntfs.rs:602-629 | the parser stops exactly where the data does not start with the bytes of a complete run |
| RunParser.SplitOfJoin | src/fs/ntfs.rs:598-644 | every list of runs, followed by anything that is not a complete run, is taken apart into exactly those runs |
| RunParser.CutParsesPrefix | src/fs/ntfs.rs:598-644 | data cut off anywhere yields the first of the runs that the whole data yields |
| RunParser.RoundTrip | src/fs/ntfs.rs:598-644 | every list of runs, each encoded with any widths that hold it, is parsed as exactly those lengths and signed offsets |
| RunParser.EightByteOffsetLost | src/fs/ntfs.rs:635-637 | every negative offset of eight bytes other than -1 is parsed as -1 |
| RunParser.ReadRun | src/fs/ntfs.rs:602-641 | one round of the loop reads one run with its three checks, or stops exactly where the format does |
| RunParser.ParseRunList | src/fs/ntfs.rs:598-644 | the loops compute the runs of the format |
| Tiling.WalkFailsIff | src/fs/ntfs.rs:501-587 | a walk by sizes fails exactly when an offset that the sizes lead to is faulty |
| Tiling.FoundIffLaid | src/fs/ntfs.rs:501-587 | a walk by sizes finds exactly the items that stand one after the other |
| Mft.PanicsIff | src/fs/ntfs.rs:483-596 | parsing panics exactly when the record is valid and one of the attributes that the sizes lead to is non-resident with its list of runs after its end |
| MftCases.BadRecordPanics | src/fs/ntfs.rs:483-596 | a record of 1024 bytes, written out, that makes it panic |
| Mft.AttributesTile | src/fs/ntfs.rs:501-587 | the attributes returned are exactly those that tile the data from the first offset on, each where the sizes of those before it end, inside the data, up to where the walk ends |
| Mft.ReadName | src/fs/ntfs.rs:526-540 | the loop collects the text of the units, which `MftFormat.TextIffSpelled` gives a meaning |
| Mft.ReadAttribute | src/fs/ntfs.rs:502-583 | one round of the loop ends, panics or reads an attribute exactly as the format says (`MftFormat.EndsIffClosed`, `Mft.PanicsIff`, `MftBytes.TakenIffSaid`) |
| Mft.ReadAttributes | src/fs/ntfs.rs:498-587 | the loop collects the attributes of the walk |
| Mft.ParseMftRecord | src/fs/ntfs.rs:483-596 | the outcome is that of the format, with both error cases (`MftBytes.RecordIffSaid`, `MftBytes.RejectedIff`) |
| MftFormat.Local | src/fs/ntfs.rs:502-583 | an attribute all of whose parts lie inside it is parsed the same wherever it stands and whatever is around it |
| MftFormat.TextIffSpelled | src/fs/ntfs.rs:528-535 | what the UTF-16 units of a name are read as is exactly the text whose characters are the units that are no surrogates, in their order |
| MftFormat.TextPlain | src/fs/ntfs.rs:528-535 | without surrogates the text has one character per unit, with the unit as its code |
| MftFormat.TextConcat | src/fs/ntfs.rs:528-535 | the units of two names, one after the other, are read as one text after the other |
| MftFormat.TextWithoutSurrogate | src/fs/ntfs.rs:532-534 | a surrogate adds nothing, wherever it stands |
| MftFormat.LayoutParsed | src/fs/ntfs.rs:502-583 | an attribute laid out byte by byte, resident or with a list of runs, with or without a name given as a string, is parsed as described |
| MftFormat.EndsIffClosed | src/fs/ntfs.rs:501-520 | the walk ends exactly where the bytes FF FF FF FF stand, whatever follows, where fewer than 24 bytes are left, or where the size said is zero or reaches past the data |
| MftFormat.RecordRoundTrip | src/fs/ntfs.rs:483-596 | every record whose attributes are laid out one after the other, followed by FF FF FF FF and anything after it or by another end, is parsed as exactly the attributes described |
| MftBytes.TakenIffSaid | src/fs/ntfs.rs:502-583 | one round of the loop takes an attribute exactly when the bytes say it field by field, whether or not its name, content or runs lie inside it or inside the data |
| MftBytes.AttributesIffSaid | src/fs/ntfs.rs:498-587 | the attributes found are exactly those that the bytes say, each where the sizes of those before it end |
| MftBytes.RejectedIff | src/fs/ntfs.rs:484-491 | data is rejected, with an I/O error, exactly when it is shorter than 1024 bytes or does not start with `FILE` |
| MftBytes.RecordIffSaid | src/fs/ntfs.rs:483-596 | for all data a record is returned exactly when the bytes say it |
| Paths.ComponentsConcatIff | src/fs/vfs.rs:315-317 | the components of a path are those of its two halves exactly when it is cut at a slash or at an end |
| Paths.ComponentsSlash | src/fs/vfs.rs:315-317 | slashes separate and are otherwise ignored |
| Paths.NormalForm | src/fs/vfs.rs:315-317 | every path has the components of one with single slashes |
| Vfs.ResolveMeaning | src/fs/vfs.rs:288-308 | the unique longest non-empty mount that is a prefix is chosen and with the rest makes up the path; else `/` with the whole path; else an error |
| Vfs.ResolvesComponentsIff | src/fs/vfs.rs:288-308 | the mount chosen is made of whole names of the path exactly when the longest mounted prefix is cut off at a slash |
| Vfs.MountTakesLongerName | src/fs/vfs.rs:293 | `/mnt` is chosen for `/mntx/f` |
| Vfs.TraverseComposes | src/fs/vfs.rs:310-325 | walking `a/b` is walking `a` and from there `b`; a lookup error is passed on |
| Vfs.TraverseNormal | src/fs/vfs.rs:310-325 | paths with the same components lead to the same inode or error |
| Vfs.LeadsIff | src/fs/vfs.rs:310-325 | looking up names one after the other leads to one inode or fails with the error of the first lookup that fails |
| Vfs.FindsIff | src/fs/vfs.rs:244-250 | the inode found is exactly what the path names: what the components of the rest lead to from the root of the longest mount that covers the path, or all its components from `/`, or an error |
| Vfs.OpenMeaning | src/fs/vfs.rs:244-259 | `open` of a path that names an inode gives out the next descriptor for that inode and changes nothing else; of one that names an error it gives that error and changes nothing |
| Vfs.OpenFailsIff | src/fs/vfs.rs:244-259 | `open` fails exactly when nothing covers the path and `/` is not mounted, or when a lookup fails, and with that error |
| Vfs.NextFdCounts | src/fs/vfs.rs:216-259 | over every run descriptors are given out one after the other, from 3 on |
| Vfs.RunGivenOut | src/fs/vfs.rs:216-265 | over every run open descriptors are at least 3 and below the next one |
| Vfs.NeverReused | src/fs/vfs.rs:252-258 | over every run a descriptor given out later is larger, so none is given out twice |
| Vfs.DescriptorLife | src/fs/vfs.rs:244-265 | over every run a descriptor is open exactly until it is closed, and stands for the inode that the components of its path led to, from the longest covering mount, when it was opened, whatever is mounted since |
| Vfs.MountLife | src/fs/vfs.rs:224-242 | over every run what is mounted at a path is the first thing mounted there since it was last free |
| Vfs.RunAnswers | src/fs/vfs.rs:224-265 | over every run a mount succeeds exactly on a free path, an unmount exactly on one that is not, a close exactly on a descriptor given out and not closed since; else the error of each, and nothing changes |
| VirtualFileSystem.VirtualFileSystem.Mount | src/fs/vfs.rs:224-236 | the maps change as `Vfs.Mount` says |
| VirtualFileSystem.VirtualFileSystem.Unmount | src/fs/vfs.rs:238-242 | the maps change as `Vfs.Unmount` says |
| VirtualFileSystem.VirtualFileSystem.BestMount | src/fs/vfs.rs:289-297 | the loop over the mounts, in any order, finds the longest that the path starts with |
| VirtualFileSystem.VirtualFileSystem.ResolveMountPoint | src/fs/vfs.rs:288-308 | so the answer does not depend on the order |
| VirtualFileSystem.VirtualFileSystem.TraversePath | src/fs/vfs.rs:310-325 | the loop of lookups, with its early return, is `Vfs.Traverse` |
| VirtualFileSystem.VirtualFileSystem.Open | src/fs/vfs.rs:244-259 | the maps and the counter change as `Vfs.Open` says, which is what `Vfs.OpenMeaning` says of the path; a failed call changes nothing |
| VirtualFileSystem.VirtualFileSystem.Close | src/fs/vfs.rs:261-265 | the maps change as `Vfs.Close` says |
| Stacks.StacksDisjoint | src/sched/task.rs:288-300 | over every run of requests of any sizes the stacks given out lie in the region and do not overlap |
| Stacks.TaskStackTop | src/sched/task.rs:288-300 | request n for a task stack gets the n-th 64 KB of the region, and each after the 352nd gets 0 |
| Stacks.StackRegion.Alloc | src/sched/task.rs:288-300 | advances NEXT_STACK as `Stacks.AllocStack` says |
| Boot.BootMarks | src/lib.rs:864-875 | with a kernel image that ends by 0xE00000 the pages marked after boot are exactly those below it |
| Boot.EarlyStacksSafe | src/lib.rs:864-875 | over every run from boot no page handed out overlaps one of the first 64 task stacks |
| Boot.LateStackShared | src/sched/task.rs:288-300 | every later task stack overlaps pages that one call of `alloc_pages` after boot hands out |

## Left out

- Nothing was executed: the project is a model and its proofs.
- Hardware effects: CR3, `invlpg`, port I/O, interrupts, and the zeroing of page contents other than page tables.
- The initial stack frame of a task and the registers that `context_switch` copies: a saved stack pointer is an opaque number.
- The lock inside `Arc<Mutex<Task>>`: methods of the scheduler run one at a time.
- NEXT_TASK_ID and NEXT_PAGE_ADDR are statics; here they are fields of the scheduler and of the address space.
- Wrap-around of 64-bit addresses, counters, task ids and descriptors: they are unbounded numbers, except in `alloc_bump` and in
  the NTFS decoders; where a mask or a shift depends on the width it is written out.
- Task names, types, parents, start ticks and the process group: no modelled operation reads them.
- HugePageOps.MapPageUnderGiant: follows a present word of the mapped memory to the write it leads to, and no further: what the
  write changes depends on what is there.
- IdentityRange.IdentityMapSucceedsIff: speaks of ranges without huge pages.
- PageAllocator: the methods other than the constructor speak of a memory of whole pages and at most 64 GB, as `kernel_main`
  passes it.
- SchedTicks.BoundedWait: speaks of tasks to which no SIGKILL and no SIGTSTP is to be delivered, since these can stop the current
  task for good.
- HeapRuns.EveryRun: speaks of callers that give back live pointers with their own layouts and never ask for zero bytes, as
  the contract of `GlobalAlloc` demands.
- PmmRuns.EveryRun: speaks of callers that free only pages they were given.
- Mft: attribute codes stay numbers; the enumeration of known codes is not part of this model.
- The inodes of a file system: `lookup` is a function, the same at every call; reading, writing and open flags of descriptors
  are not part of this model, and neither are mount flags, which no modelled operation reads.
- Lengths of strings are counted in characters, not in UTF-8 bytes; a prefix is longer in one exactly when it is in the other.
- `read_from_runs` and `get_mft_record`: the first only writes zeroes, the second never reads a disk.
- The journal, the boot sector parser, ACPI, timers, keyboard, shell, system calls and user programs.
