# SukiOS in Dafny

SukiOS is a small x86_64 kernel written in C. This project models five of its stateful
algorithms and proves what they keep over every call and every run:

- **Memory management**: the bitmap frame allocator (`Pmm`), and the four-level page tables above it
  (`PageTables`, `VirtualMemory`). Physical memory is a map from frames to tables of 512 words. The
  abstract view of a table tree is its translation: a partial map from page paths to frame, rights and
  flags ("4-Level Paging", section 4.5 of the Intel SDM, volume 3). Every operation is proved to change
  that map at its own page only, including the 511 neighbours of a page in a 2 MB page that is split.
- **The kernel heap** (`HeapModel`, `HeapSteps`, `HeapAccounting`, `Heap`): boundary-tagged blocks that
  tile the mapped region and a doubly linked free list, with the footer word as a parameter; an operation
  that may grow the heap takes the number of pages that can still be mapped.
- **FAT32** (`FatChains`, `FatData`, `FatReading`, `FatRelease`, `FatDisk`, `FatDirectory`, `Fat32`,
  `FatMount`, `FatLayout`,
  `ShortNames`, `Listing`) and the descriptor layer above it (`WriteRuns`, `Vfs`): cluster chains in a table,
  file contents as byte sequences on an abstract sector disk, the root directory and its listing, and the order
  of disk writes.
- **The scheduler** (`Scheduling`, `Proc`): a transition system over creation, `schedule()` and exit, and
  the linked queue of process control blocks that implements it.
- **The ELF64 loader** (`ElfFormat`, `ElfLayout`, `AddressSpace`, `LoaderOnVmm`, `Elf`), running on the page tables of the
  first part: its `vmm_is_mapped`, `vmm_alloc_map` and stores are those of `VirtualMemory.Vmm`, and what it
  leaves is stated through `Translate`, byte by byte.

Code that updates state in place is a class whose methods are proved against a specification function
or predicate; what the source promises is then proved of the specification, over all inputs or all runs.
`Words` holds machine words: a C `uint64_t` is a natural number below 2^64, and every wrap-around,
mask and shift is written out. `Bytes` takes words apart into bytes; `Collections` holds what several parts
need about sequences and sets.

Hardware is abstract. The disk may fail on any sector; a failed write leaves that sector unknown. Frame
allocation fails exactly when no frame is free. TLB and CR3 instructions, interrupts and the clock do
not appear; a context switch is one step, and time stamps are parameters.

## What the proofs show about the code

Besides the properties in the table, modelling the code as it is turned up these facts. Each is a
theorem, with the exact condition where there is one.

- As written, `set_footer` stores the size without the allocated flag while `check_footer` compares with
  the whole header, so `kfree` of a live block changes nothing at all (`Heap.KernelHeap.Kfree`,
  `HeapSteps.FooterAgrees`). The comment beside the code says the flag is meant to be included; the
  invariants are proved for both footers, the release for the documented one.
- A heap expansion that fails part way leaves mapped memory that no block structure fits
  (`Heap.NoStructureAfterPartialExpansion`). A `kmalloc` ends so exactly when nothing fits, some of the pages it
  needs can be mapped, and not all of them (`Heap.Loses` in `Heap.KernelHeap.Kmalloc`).
- The used-bytes counter adds the rounded request but subtracts the block size. A call moves it away from
  the sum of the live block sizes by what the block is larger than the request, and by nothing exactly when
  the block is cut or fits exactly (`Heap.Taken`); over every run the two differ by all the slack so far,
  freed or not (`HeapAccounting.RunDrifts`), so an allocation and its release can take the counter below zero
  and around 2^64 (`HeapAccounting.CounterWraps`).
- The frame counter equals the number of clear bits exactly when the available ranges do not overlap
  (`Pmm.InitBalanced`).
- Splitting a 2 MB page keeps the memory type only if its PAT bit was set, and loses execute-disable
  (`PageTables.SplitCarriesOver`). `vmm_is_mapped` and `vmm_get_phys` see 4 KB pages only
  (`VirtualMemory.Vmm.IsMapped`). Tables made on demand carry no user bit, so the effective user right
  of a page under them is off whatever its own flags say (`PageTables.UserNeedsTables`). `vmm_alloc_map`
  keeps its frame when mapping fails; `vmm_change_flags` can map a page that was not mapped
  (`VirtualMemory.Vmm.ChangeFlags`).
- `fat32_write` takes the in-cluster offset for the end of the file: the size is right exactly when the
  write stayed inside the file or ended in the first cluster (`FatData.SizeGrowth`). No sequence of
  `vfs_write` calls makes a file larger than one cluster, unless it was (`WriteRuns.SizeStaysSmall`), and the
  calls land one behind the other exactly when all but the last end within the first cluster or the original
  size (`WriteRuns.InOrderIff`); otherwise a later one goes back and overwrites (`WriteRuns.SizeTooSmall`).
- `fat32_read` from a cursor at the end of a cluster first delivers the sector that follows the cluster on
  disk. It still delivers the contents, for every disk, exactly when one sector at most is asked for and
  the next cluster is adjacent (`FatReading.ReadRight`).
- Deletion is crash-ordered; creation is not. After j sectors of its directory write and k of its flush the
  disk is safe exactly when the sector with the new entry is not among the j, or the directory write is
  complete and the table sector with the new cluster is among the k (`FatDirectory.CreationSafeIff`).
- A listed name finds its own entry exactly when the raw name has no NUL, no dot in its first nine bytes
  and only trailing spaces (`ShortNames.PrintedNameFindsItself`).
- Directory listings stop at the first end mark of the whole directory, lookups only at the first of each
  cluster (`Listing.Enumerated` beside `FatDirectory.At`).
- An exit keeps the scheduler's order exactly when it is not idle that exits (`Scheduling.ExitKeepsOkIff`);
  exec never does, since its new process is both current and queued (`Scheduling.ExecNeverKeepsOk`).
- The loader checks program headers with `e_phentsize` but steps by 56 bytes, in arithmetic that wraps. The
  headers lie inside every file that passes exactly when there are none, when `e_phentsize` is at least 56 and
  neither the product nor the sum overflows, or when the product passes 2^31, counts as negative and makes the
  check demand nearly 2^64 bytes (`ElfFormat.HeaderCheckSuffices`); one entry just below 2^64 passes on any file
  (`ElfFormat.HeaderBeforeFile`).
- After `vmm_init` every page below 4 GB translates to the frame of its own number, and `app/user.ld` links
  programs at 4 MB. The first `vmm_alloc_map` of a program splits the 2 MB page, after which `vmm_is_mapped`
  holds for its other 511 pages and the loader gives them no frame (`Elf.OthersGetNoFrame`,
  `Elf.SecondPageOfProgram`). They stay on frames that the allocator still hands out and clears; what was stored
  there then reads as zero (`Elf.StoredBytesLost`). So a program is in place after a load whose touched pages
  have frames of their own, none of them a table (`Elf.Loader.Load`); page layouts without that cannot hold every
  program (`AddressSpace.HoldsEveryProgram`).
- The first page of a writable segment, when it gets a frame, is writable exactly when the levels above allow it
  and the segment begins on a page boundary (`Elf.FirstPageWritable`).

## Model

| member | source | states |
|---|---|---|
| Pmm.WithBitAt | kernel/EarlyKernel/pmm.c:38-48 | setting or clearing a bit of a bitmap byte gives that bit the value and no other |
| Pmm.FrameAllocator.BitmapSet | kernel/EarlyKernel/pmm.c:38-42 | the page leaves the set of free pages; pages out of range are ignored |
| Pmm.FrameAllocator.BitmapClear | kernel/EarlyKernel/pmm.c:44-48 | the page joins the set of free pages; pages out of range are ignored |
| Pmm.FrameAllocator.BitmapTest | kernel/EarlyKernel/pmm.c:50-54 | whether the page is in use; out of range counts as used |
| Pmm.FrameAllocator.Init | kernel/EarlyKernel/pmm.c:56-94 | free pages are the available ranges without the kernel image: no byte of the image is on a free page and no available page beyond it is withheld; total equals the free count if and only if the ranges are disjoint; with page 0 reserved the ledger is balanced |
| Pmm.WholePages | kernel/EarlyKernel/pmm.c:67-79 | the pages of an entry are those that lie wholly inside it, for available entries that do not wrap |
| Pmm.ImagePages | kernel/EarlyKernel/pmm.c:81-87 | the reserved pages are those that hold a byte below the end of the kernel image |
| Pmm.FrameAllocator.ScanMap | kernel/EarlyKernel/pmm.c:63-79 | the scan frees the union of the ranges and counts the sum of their sizes |
| Pmm.FrameAllocator.ReserveKernel | kernel/EarlyKernel/pmm.c:81-93 | the image's pages leave the free set, and the counters move by as many as were free |
| Pmm.FrameAllocator.AllocPage | kernel/EarlyKernel/pmm.c:96-107 | the lowest free page is handed out, address 0 if there is none |
| Pmm.FrameAllocator.FreePage | kernel/EarlyKernel/pmm.c:109-117 | a used page becomes free again; a free or out-of-range one is ignored |
| Pmm.SumIsUnion | kernel/EarlyKernel/pmm.c:63-79 | counting range by range counts each page once if and only if no two ranges overlap |
| Pmm.InitBalanced | kernel/EarlyKernel/pmm.c:56-94 | after init the counter is the number of clear bits if and only if the ranges are disjoint, and then the ledger is balanced |
| Pmm.StepKeepsBalance | kernel/EarlyKernel/pmm.c:96-117 | one allocation or legal release keeps total equal to the free count and used plus total constant, and hands out only unheld pages |
| Pmm.AllocationTakes | kernel/EarlyKernel/pmm.c:96-107 | an allocation takes the lowest free page, and the counters move by one |
| Pmm.ReleaseReturns | kernel/EarlyKernel/pmm.c:109-117 | after a legal release the page is free and held by nobody, nothing else changes, and the next allocation succeeds |
| Pmm.RunKeepsBalance | kernel/EarlyKernel/pmm.c:96-117 | the same over every legal run |
| Pmm.NeverHandedOutTwice | kernel/EarlyKernel/pmm.c:96-107 | at every point of every legal run the page an allocation returns is held by nobody, and 0 is returned exactly when nothing is free |
| PageTables.ComposePath | include/kernel/vmm.h:55-79 | the four indices are exactly the digits of the page number |
| PageTables.SamePath | include/kernel/vmm.h:55-79 | two addresses share a walk if and only if their page numbers agree |
| PageTables.IndexBits | include/kernel/vmm.h:55-79 | the digits are the header file's shifts and masks |
| PageTables.SmallPage | kernel/InitKernel/vmm.c:146-147 | a 4 KB page: frame from bits 12-51 of the last entry, each right if every level grants it ("4-Level Paging", section 4.5 of the Intel SDM, volume 3) |
| PageTables.LargePage | kernel/InitKernel/vmm.c:122-140 | a 2 MB page: bits 21-51 of its entry with bits 0-20 of the address |
| PageTables.HugePage | kernel/InitKernel/vmm.c:65-68 | a 1 GB page: bits 30-51 of its entry with bits 0-29 of the address |
| PageTables.NoPage | kernel/InitKernel/vmm.c:81-103 | an absent entry on the way means no translation |
| PageTables.LinkBuilds | kernel/InitKernel/vmm.c:41-50 | linking a zeroed table in an absent entry keeps the tree well formed and every translation and effective right |
| PageTables.SplitBuilds | kernel/InitKernel/vmm.c:122-140 | replacing a 2 MB entry by a table of 512 entries keeps the tree well formed and every translation and effective right |
| PageTables.SplitKeepsView | kernel/InitKernel/vmm.c:128-138 | all pages, the 512 of the split page included, translate as before |
| PageTables.SplitCarriesOver | kernel/InitKernel/vmm.c:133-138 | after a split the memory type is the same if and only if the PAT bit was set, execute-disable if and only if it was clear |
| PageTables.LeafWrite | kernel/InitKernel/vmm.c:146-147 | writing a leaf entry changes the translation of its page only and keeps the tree well formed |
| PageTables.BuildThenMap | kernel/InitKernel/vmm.c:109-151 | building tables and then writing the leaf is a mapping of the page: frame, flags and effective rights as given, every other page unchanged |
| PageTables.FreeKept | kernel/InitKernel/vmm.c:36-151 | a frame that is free after an operation holds what it held |
| PageTables.UserNeedsTables | kernel/InitKernel/vmm.c:36-103 | a mapped page is open to user mode if and only if its flags and the levels above it say so, and never when a table had to be made for it |
| PageTables.MissingBound | kernel/InitKernel/vmm.c:36-103 | a walk lacks at most three tables |
| PageTables.WalkerSees | kernel/InitKernel/vmm.c:81-103 | the 4 KB walk finds a leaf if and only if the page translates and is not in a large page |
| PageTables.AllocThenMap | kernel/InitKernel/vmm.c:202-213 | a frame set aside and zeroed survives the mapping intact, is no table, and is what the page translates to |
| PageTables.TranslationKept | kernel/InitKernel/vmm.c:109-213 | over every run a page no operation targets keeps its translation |
| PageTables.TablesStayIdentityMapped | kernel/InitKernel/vmm.c:27-53 | over every run in which no target is the identity page of a frame that is ever a table, every table frame is identity-mapped at every point, so the walker's dereferences are sound |
| PageTables.MappedIsStep | kernel/InitKernel/vmm.c:109-151 | a successful mapping is a step of such a run |
| PageTables.LeafSetIsStep | kernel/InitKernel/vmm.c:153-191 | unmapping and flag changes are steps of such a run |
| PageTables.BuildsIsStep | kernel/InitKernel/vmm.c:109-145 | a mapping that fails is a step of such a run |
| PageTables.AllocMappedIsStep | kernel/InitKernel/vmm.c:202-213 | a successful vmm_alloc_map is a step of such a run |
| PageTables.AllocFailedIsStep | kernel/InitKernel/vmm.c:202-213 | a failed one is too |
| VirtualMemory.Vmm.AddTable | kernel/InitKernel/vmm.c:41-50 | an absent table is allocated, cleared and linked, or nothing changes |
| VirtualMemory.Vmm.GetPdpt | kernel/InitKernel/vmm.c:36-53 | finds the first-level table, allocating at most one frame, changing no translation |
| VirtualMemory.Vmm.GetPd | kernel/InitKernel/vmm.c:56-78 | finds the second-level table or fails exactly when it is absent and may not or cannot be made, or a 1 GB page is in the way |
| VirtualMemory.Vmm.GetPt | kernel/InitKernel/vmm.c:81-103 | finds the last-level table or fails exactly when it is absent and may not or cannot be made, or a large page is in the way |
| VirtualMemory.Vmm.SplitLargePage | kernel/InitKernel/vmm.c:122-140 | splits if and only if a frame is free; no translation changes |
| VirtualMemory.Vmm.MapPage | kernel/InitKernel/vmm.c:109-151 | succeeds if and only if no 1 GB page is in the way and enough frames are free; the page maps to the frame with the flags, every other page is unchanged; failure changes no translation; at most three frames are used |
| VirtualMemory.Vmm.UnmapPage | kernel/InitKernel/vmm.c:153-163 | the page stops translating unless it is in a large page; no other page changes |
| VirtualMemory.Vmm.GetPhys | kernel/InitKernel/vmm.c:165-175 | the physical address of a 4 KB-mapped address, 0 otherwise; nothing changes |
| VirtualMemory.Vmm.IsMapped | kernel/InitKernel/vmm.c:193-200 | true if and only if the page translates and is not in a large page |
| VirtualMemory.Vmm.ChangeFlags | kernel/InitKernel/vmm.c:177-191 | the leaf keeps its frame and takes the low twelve flag bits; no other page changes |
| VirtualMemory.Vmm.AllocMap | kernel/InitKernel/vmm.c:202-213 | exact success condition; on success the page maps a zeroed frame that was free; on failure no translation changes but the frame is not returned |
| VirtualMemory.Vmm.MapMmio | kernel/InitKernel/vmm.c:215-232 | a returned window maps base + k to phys + k for every k below size, present, writable, write-through and not cached; it is above the heap's region, takes exactly the pages it touches, is apart from all earlier windows, and those still hold; it fails only if a 1 GB page is in the way or fewer frames are free than three per page |
| VirtualMemory.WindowIsTight | kernel/InitKernel/vmm.c:217-219 | no fewer pages would hold a window |
| VirtualMemory.Vmm.Init | kernel/InitKernel/vmm.c:241-268 | succeeds if and only if four frames are free, and then 0-4 GB is identity-mapped in 2 MB pages |
| VirtualMemory.LowPagesAreIdentity | kernel/InitKernel/vmm.c:253-268 | every page below 4 GB translates to itself, open to user mode |
| VirtualMemory.InitStartsIdentityMapped | kernel/InitKernel/vmm.c:241-270 | after init every table and every frame that can become one is identity-mapped |
| HeapModel.Covered | kernel/InitKernel/heap.c:63-67 | tiling: every address of the region lies in a block |
| HeapModel.UnlinkLinked | kernel/InitKernel/heap.c:86-94 | removal unlinks exactly one entry of the doubly linked list |
| HeapModel.PushLinked | kernel/InitKernel/heap.c:96-102 | insertion puts the block at the head of the list |
| HeapModel.ReplaceLinked | kernel/InitKernel/heap.c:216-222 | the rest block takes the place of the block that is cut |
| HeapSteps.SplitStep | kernel/InitKernel/heap.c:210-228 | a split keeps tiling, tags, links and list membership, and no live payload changes |
| HeapSteps.WholeStep | kernel/InitKernel/heap.c:229-235 | the same for taking a whole block |
| HeapSteps.MergeStep | kernel/InitKernel/heap.c:106-135 | the same for merging neighbours |
| HeapSteps.FreeStep | kernel/InitKernel/heap.c:268-271 | the same for marking a block free |
| HeapSteps.InsertStep | kernel/InitKernel/heap.c:277-278 | the same for inserting the merged block |
| HeapSteps.ExtendStep | kernel/InitKernel/heap.c:198-205 | the same for a block over newly mapped pages |
| HeapSteps.PayloadsDisjoint | kernel/InitKernel/heap.c:174-241 | payloads of different blocks are disjoint, 16-byte aligned and inside the region |
| HeapSteps.ExactlyOneBlock | kernel/InitKernel/heap.c:63-67 | an address is in the region if and only if it is in a block, and then in one only |
| HeapSteps.FooterAgrees | kernel/InitKernel/heap.c:70-83 | header and footer agree if and only if the footer is the documented one or the block is free |
| HeapSteps.PayloadWrite | kernel/InitKernel/heap.c:297-300 | storing a word of a live payload keeps the whole heap structure |
| Heap.NoStructureAfterPartialExpansion | kernel/InitKernel/heap.c:138-147 | after a partial expansion no block structure fits the region |
| Heap.KernelHeap.constructor | kernel/InitKernel/heap.c:150-171 | the heap starts consistent, with one free page if it can be mapped and empty otherwise, and nothing live |
| Heap.KernelHeap.StampBlock | kernel/InitKernel/heap.c:34-49 | header, magic and footer words of a block are written |
| Heap.KernelHeap.ListRemove | kernel/InitKernel/heap.c:86-94 | memory and head after removal |
| Heap.KernelHeap.ListInsertHead | kernel/InitKernel/heap.c:96-102 | memory and head after insertion |
| Heap.KernelHeap.PrevPhys | kernel/InitKernel/heap.c:52-61 | the free block before this one is found through its footer |
| Heap.KernelHeap.MergePrev | kernel/InitKernel/heap.c:123-135 | merges with the block before if and only if that is free, keeping the invariant |
| Heap.KernelHeap.MergeNext | kernel/InitKernel/heap.c:106-120 | merges with the block after if and only if that is free, keeping the invariant |
| Heap.KernelHeap.ExpandTo | kernel/InitKernel/heap.c:138-147 | succeeds if and only if the pages needed can be mapped and fit below the limit; it maps exactly those, or as many as it can |
| Heap.KernelHeap.FindFit | kernel/InitKernel/heap.c:184-189 | the first block of the list that is large enough |
| Heap.KernelHeap.Take | kernel/InitKernel/heap.c:208-235 | the block is cut if the rest is a block, taken whole otherwise; the invariant holds and live payloads are kept |
| Heap.KernelHeap.Kmalloc | kernel/InitKernel/heap.c:174-241 | an aligned new payload of at least the size, disjoint from all others, cut from the first list entry that is large enough or from new space, with every live payload intact and no free neighbours left; NULL if and only if the size is bad or nothing fits and too few pages can be mapped; the structure is lost if and only if nothing fits and some but not all of the pages needed can be mapped |
| Heap.RefusedIff | kernel/InitKernel/heap.c:174-205 | the refusal in the request's own terms: size 0 or above 256 MB, or neither a free block nor the pages that can be mapped have room for the size and 48 bytes of tags |
| Heap.Taken | kernel/InitKernel/heap.c:208-235 | of a large enough block less than a minimal block more than the request is taken, and exactly the request if and only if the block is cut or fits exactly |
| HeapAccounting.EntryDrifts | kernel/InitKernel/heap.c:237-266 | a call moves the counter away from the sum of live sizes by the slack of its allocation and nothing else |
| HeapAccounting.RunDrifts | kernel/InitKernel/heap.c:237-266 | over every run the two differ by the slack of all allocations so far, modulo 2^64 |
| HeapAccounting.CounterWraps | kernel/InitKernel/heap.c:237-266 | an allocation with slack and its release leave the counter at 2^64 minus the slack |
| Heap.KernelHeap.Kfree | kernel/InitKernel/heap.c:244-281 | documented footer: exactly this block is released and merged, all other payloads are intact; footer as written, or not live, or checks not passed: the whole heap state is unchanged |
| Heap.KernelHeap.Krealloc | kernel/InitKernel/heap.c:284-303 | NULL exactly for size 0 or when a larger block is needed and cannot be had; the result begins with all bytes of the old payload, all other payloads are intact, failure changes no memory; the structure is lost exactly when kmalloc loses it |
| Heap.KernelHeap.CopyPayload | kernel/InitKernel/heap.c:297-300 | the byte copy loop: the bytes arrive, nothing else in the heap changes |
| Heap.KernelHeap.HeapCheck | kernel/InitKernel/heap.c:341-363 | over any memory whose next words end: 0 if and only if the prev words agree and every node is in range, tagged and free |
| Heap.ConsistentPassesCheck | kernel/InitKernel/heap.c:341-363 | every state that satisfies the invariant passes it |
| FatChains.NextInChain | kernel/BasicDrivers/fat32.c:45-49 | following the table from a chain's cluster gives its next one, or an end marker after the last |
| FatChains.LinkIgnoresTop | kernel/BasicDrivers/fat32.c:45-49 | the top four bits of a table entry do not count |
| FatChains.ChainUnique | kernel/BasicDrivers/fat32.c:45-49 | a first cluster determines its chain |
| FatChains.ExtendOwned | kernel/BasicDrivers/fat32.c:208-218 | appending a free cluster keeps all chains acyclic and disjoint, changes no other chain, and leaks nothing |
| FatChains.CreateOwned | kernel/BasicDrivers/fat32.c:329-331 | the same for a new one-cluster chain |
| FatChains.DeleteOwned | kernel/BasicDrivers/fat32.c:360-369 | the same for releasing a chain; exactly its clusters become free |
| FatChains.Conservation | kernel/BasicDrivers/fat32.c:55-59 | free clusters, chain lengths and unowned clusters add up to the volume |
| FatChains.FatRunConserves | kernel/BasicDrivers/fat32.c:199-434 | over every run of extensions, creations and deletions chains stay acyclic and pairwise disjoint and the sum is conserved, with the clusters unowned at the start |
| FatData.ContentsAt | kernel/BasicDrivers/fat32.c:51-53 | where byte o of cluster i of a chain is on the disk |
| FatData.ContentsOnDisk | kernel/BasicDrivers/fat32.c:51-53 | byte o of cluster c is byte o of the (c - 2)-th cluster of the data area |
| FatData.DataArea | kernel/BasicDrivers/fat32.c:51-53 | the sectors of the data clusters are exactly the data area |
| FatData.LbaInjective | kernel/BasicDrivers/fat32.c:51-53 | different clusters and sectors are different disk sectors |
| FatData.ChunkWritten | kernel/BasicDrivers/fat32.c:219-230 | one read-patch-write of a sector extends the overwritten range of the contents by its chunk |
| FatData.OtherContents | kernel/BasicDrivers/fat32.c:199-236 | files on other clusters read as before |
| FatData.FewestIsLeast | kernel/BasicDrivers/fat32.c:208-218 | the extension is the least that holds the end of the write |
| FatData.SizeGrowth | kernel/BasicDrivers/fat32.c:232-234 | the recorded size is right if and only if the write stayed in the file or ended in the first cluster |
| FatReading.ReadChunk | kernel/BasicDrivers/fat32.c:180-191 | one sector's chunk is the next part of the contents |
| FatReading.ReadRight | kernel/BasicDrivers/fat32.c:181-184 | exactly when a read from a cursor delivers the contents whatever the disk holds |
| FatRelease.SeenIsReached | kernel/BasicDrivers/fat32.c:360-369 | what the release loop has seen when it stops is exactly what can be reached |
| FatRelease.ChainIsReached | kernel/BasicDrivers/fat32.c:360-369 | from the first cluster of a chain exactly the chain can be reached |
| FatDisk.WordRoundTrip | kernel/BasicDrivers/fat32.c:296-301 | the four little-endian bytes of an entry give the entry back |
| FatDisk.EntryOnDisk | kernel/BasicDrivers/fat32.c:92-95 | entry c of the table is the little-endian number in its bytes 4c to 4c + 3 |
| FatDisk.UpperLetters | kernel/BasicDrivers/fat32.c:31-32 | small letters become their capitals and no other byte changes |
| FatDisk.FlushedEntry | kernel/BasicDrivers/fat32.c:296-301 | a flush stopped anywhere leaves each entry on disk new or as it was; a whole one makes all new |
| FatDisk.MarkedListing | kernel/BasicDrivers/fat32.c:402 | marking an entry deleted removes it from the listing and changes no other entry |
| FatDisk.AddedListing | kernel/BasicDrivers/fat32.c:333-346 | a new entry in the first free slot is listed, and no other entry changes |
| FatDisk.AddedStart | kernel/BasicDrivers/fat32.c:336-337 | the new entry's two cluster fields give its cluster back |
| FatLayout.NewEntryLaidOut | kernel/BasicDrivers/fat32.c:333-346 | the new entry, laid out field by field as the specification has it |
| FatLayout.DirRead | kernel/BasicDrivers/fat32.c:153-157 | an entry laid out so is read as its name, attributes, first cluster and size |
| FatLayout.ListedIff | kernel/BasicDrivers/fat32.c:140-146 | which raw entries the scans look at |
| FatLayout.EntryOnDisk | kernel/BasicDrivers/fat32.c:140-143 | where a directory entry is on the disk |
| FatLayout.BootRead | include/kernel/fat32.h:6-36 | a boot sector laid out as the specification has it is read as its fields |
| FatMount.RegularLayout | kernel/BasicDrivers/fat32.c:76-88 | on a regular volume all copies of the table lie between the reserved sectors and the data, the first is the cached one, and the data clusters end within the volume |
| FatMount.TableCovers | kernel/BasicDrivers/fat32.c:83-95 | cluster numbers index the cached table if and only if it has an entry for each, which is not checked |
| FatMount.Mount | kernel/BasicDrivers/fat32.c:62-103 | the volume that the boot sector describes, with the table that is on disk; refused only for a wrong signature or sector size, and never mounted with one |
| FatDirectory.MarkingIsSafe | kernel/BasicDrivers/fat32.c:402-422 | after every prefix of the directory write, going by the disk alone, each listed entry and the root have their whole chains |
| FatDirectory.FlushingIsSafe | kernel/BasicDrivers/fat32.c:425-431 | the same after every prefix of the table write that follows |
| FatDirectory.CreationSafeIff | kernel/BasicDrivers/fat32.c:329-355 | after j directory sectors and k table sectors of a creation the disk is safe if and only if the new entry is not yet on disk, or the directory write is complete and its cluster is marked on disk |
| FatDirectory.DirOkWithout | kernel/BasicDrivers/fat32.c:400-428 | after a deletion every listed entry still has a file of its own |
| FatDirectory.DirOkWith | kernel/BasicDrivers/fat32.c:329-347 | the same after a creation |
| FatDirectory.WriteKeepsDir | kernel/BasicDrivers/fat32.c:199-236 | the same after a write to a file; the directory's sectors do not change |
| Fat32.Filesystem.FindFreeCluster | kernel/BasicDrivers/fat32.c:55-59 | the lowest free cluster, 0 if and only if there is none |
| Fat32.Filesystem.NextForWrite | kernel/BasicDrivers/fat32.c:208-218 | the chain's next cluster, or a free one appended to it; nothing changes when the volume is full |
| Fat32.Filesystem.WriteChunk | kernel/BasicDrivers/fat32.c:219-227 | the sector is patched; on failure no other sector changes |
| Fat32.Filesystem.Write | kernel/BasicDrivers/fat32.c:199-236 | overwrites exactly the addressed range of the contents, extends the chain by the fewest clusters, changes no other chain and no other sector, moves the cursor to the end; on any failure the table is still well formed and the file's fields unchanged |
| Fat32.Filesystem.Read | kernel/BasicDrivers/fat32.c:171-196 | delivers the contents from the cursor up to the end of the chain, the stray sector first if the cursor is at a cluster's end, nothing past the end or without clusters; the cursor after it |
| Fat32.Filesystem.Seek | kernel/BasicDrivers/fat32.c:436-453 | the cursor for the position, clipped to the size, inside the chain |
| Fat32.Filesystem.FreeClusterChain | kernel/BasicDrivers/fat32.c:360-369 | terminates on every table whose reachable links are in range or end markers, cyclic or not, and zeroes exactly the reachable entries |
| Fat32.Filesystem.DiskRead | kernel/BasicDrivers/fat32.c:8-12 | the sectors read |
| Fat32.Filesystem.DiskWrite | kernel/BasicDrivers/fat32.c:14-24 | the sectors written, and the disk after each one |
| Fat32.Filesystem.Flush | kernel/BasicDrivers/fat32.c:296-301 | the cached table on disk, and the disk after each sector |
| Fat32.Filesystem.ScanCluster | kernel/BasicDrivers/fat32.c:387-408 | the first listed entry of a cluster with the name, or that there is none |
| Fat32.Filesystem.FindEntry | kernel/BasicDrivers/fat32.c:385-411 | the first listed entry of the directory with the name, or that there is none |
| Fat32.Filesystem.Open | kernel/BasicDrivers/fat32.c:133-168 | a cursor at the start of the first listed file with the name; absent only if no listed entry has it |
| Fat32.Filesystem.Release | kernel/BasicDrivers/fat32.c:425-428 | exactly the file's chain is given back |
| Fat32.Filesystem.Delete | kernel/BasicDrivers/fat32.c:372-434 | the first listed entry with the name goes and exactly its chain is free; starting from an up-to-date disk, every intermediate disk is crash-safe; directory and ownership invariants are kept |
| Fat32.Filesystem.FindSlot | kernel/BasicDrivers/fat32.c:313-327 | the first free entry of the directory |
| Fat32.Filesystem.Create | kernel/BasicDrivers/fat32.c:304-357 | the lowest free cluster becomes a chain of its own under a new listed entry with the name; every other entry and chain is kept |
| ShortNames.ToShort | kernel/BasicDrivers/fat32.c:27-40 | base name and extension, upper-cased and padded |
| ShortNames.ShortUnique | kernel/BasicDrivers/fat32.c:27-40 | that description determines the result |
| ShortNames.NameWithExtension | kernel/BasicDrivers/fat32.c:27-40 | BASE.EXT becomes the base in capitals padded to eight and the extension padded to three |
| ShortNames.NameWithoutExtension | kernel/BasicDrivers/fat32.c:27-40 | a name without a dot is padded to eleven; a long one spills into the extension |
| ShortNames.ReadmeName | kernel/InitKernel/main.c:113 | README.TXT is looked up as README and TXT |
| ShortNames.ExtensionNameIsFound | kernel/BasicDrivers/fat32.c:133-157 | a lookup of BASE.EXT hits the entry that is called so on disk |
| ShortNames.DisplayName | kernel/VFSAdapters/fat32_vfs.c:119-122 | the bytes before the first space |
| ShortNames.PrintedNameFindsItself | kernel/VFSAdapters/fat32_vfs.c:119-122 | to_short of the printed name is the upper-cased raw name if and only if the name has no NUL, no dot in the first nine bytes and only trailing spaces |
| ShortNames.ListedNameIsFound | kernel/BasicDrivers/fat32.c:144-163 | a lookup of such a printed name succeeds |
| Listing.DirectoryCursor.ReadDir | kernel/VFSAdapters/fat32_vfs.c:82-142 | delivers the next listed entry before the directory's first end mark with its printed name, first cluster and kind; over any sequence of calls what has been delivered is exactly what lies before the cursor, in order |
| Listing.DirectoryBit | kernel/VFSAdapters/fat32_vfs.c:123-127 | bit 4 of the attributes says whether an entry is a directory |
| Listing.DirectoryCursor.ScanRest | kernel/VFSAdapters/fat32_vfs.c:109-128 | the next listed entry of the cluster, its end mark, or neither |
| Listing.DirectoryCursor.ToNextCluster | kernel/VFSAdapters/fat32_vfs.c:130-137 | on to the next cluster of the directory, or to the end |
| Listing.EverythingOnce | kernel/VFSAdapters/fat32_vfs.c:82-142 | at the end every listed entry before the first end mark has been delivered, once |
| Listing.NothingLeft | kernel/VFSAdapters/fat32_vfs.c:111-115 | after an end mark nothing more is to be delivered |
| Vfs.Descriptors.Open | kernel/InitKernel/vfs.c:178-196 | the lowest free descriptor, at position 0; -1 if and only if there is no file or all are in use |
| Vfs.Descriptors.Close | kernel/InitKernel/vfs.c:212-218 | the descriptor is free again, and only that one; refused if and only if it was not in use |
| Vfs.Descriptors.ReadNode | kernel/VFSAdapters/fat32_vfs.c:15-20 | what a read delivers at an offset; inside the file, its contents; nothing from an empty file without clusters |
| Vfs.Descriptors.Read | kernel/InitKernel/vfs.c:198-203 | the same at the descriptor's position, which moves on by as many bytes |
| Vfs.Descriptors.ReadPieces | kernel/InitKernel/vfs.c:198-203 | any sequence of reads on a fresh descriptor with counts up to the size delivers, joined, the beginning of the file |
| Vfs.PiecesJoin | kernel/InitKernel/vfs.c:198-203 | pieces that start where the one before ended are together one piece, however split |
| Vfs.Descriptors.WriteNode | kernel/VFSAdapters/fat32_vfs.c:22-27 | the buffer goes to the offset clipped to the size; the new size; other chains and sectors are kept |
| Vfs.Descriptors.Write | kernel/InitKernel/vfs.c:205-210 | the same at the descriptor's position; size and position afterwards |
| Vfs.Descriptors.WritePieces | kernel/InitKernel/vfs.c:205-210 | any sequence of writes leaves the contents, size and position that replaying them leaves; when they are in order, the buffers one behind the other |
| WriteRuns.InOrderIff | kernel/InitKernel/vfs.c:205-210 | they are in order if and only if the position is inside the file and all but the last end within the first cluster or the original size |
| WriteRuns.InOrderJoins | kernel/InitKernel/vfs.c:205-210 | writes in order are one write of all the buffers joined |
| WriteRuns.SizeStaysSmall | kernel/BasicDrivers/fat32.c:232-234 | no sequence of writes takes the size past one cluster or what it was |
| WriteRuns.SizeTooSmall | kernel/BasicDrivers/fat32.c:232-234 | 600 bytes in 512-byte clusters leave a size of 88, and the next write goes to 88 |
| Vfs.NextWriteFollows | kernel/InitKernel/vfs.c:205-210 | the next write goes where this one ended if and only if this one stayed in the file or ended in the first cluster |
| Scheduling.StepKeepsOk | kernel/InitKernel/proc.c:102-124 | a step keeps the queue free of repetition and of the current process, idle queued exactly when not running, and the dead out of both |
| Scheduling.RunKeepsOk | kernel/InitKernel/proc.c:102-124 | the same over every run; whoever has exited never runs again |
| Scheduling.WaitingMovesUp | kernel/InitKernel/proc.c:25-42 | a waiting process moves up one place at each schedule() call and no other way |
| Scheduling.DispatchedInTurn | kernel/InitKernel/proc.c:102-124 | the process at position k runs after the (k+1)-th schedule() call and not before |
| Scheduling.PreemptedWaitsLast | kernel/InitKernel/proc.c:102-124 | a process that makes way waits last |
| Scheduling.PreemptedRunsAgain | kernel/InitKernel/proc.c:102-124 | it runs again after as many more calls as there were waiting, and not before |
| Scheduling.NobodyLost | kernel/InitKernel/proc.c:102-124 | over every run everyone who was there or has been created waits, runs or has exited |
| Scheduling.RoundRobin | kernel/InitKernel/proc.c:102-124 | k calls in a row turn the order by k places, and a whole round restores the state |
| Scheduling.ExitKeepsOkIff | kernel/EarlyKernel/idt.c:308-318 | an exit keeps the invariant if and only if it is not idle that exits |
| Scheduling.ExecNeverKeepsOk | kernel/EarlyKernel/idt.c:277-303 | exec always breaks it |
| Proc.Scheduler.Enqueue | kernel/InitKernel/proc.c:25-34 | the process is appended; links, head and tail spell out the queue |
| Proc.Scheduler.Dequeue | kernel/InitKernel/proc.c:36-42 | the first process is taken off; links, head and tail spell out the rest |
| Proc.Scheduler.Init | kernel/InitKernel/proc.c:133-161 | idle is current and not queued |
| Proc.Scheduler.Create | kernel/InitKernel/proc.c:66-99 | a new process with the next pid waits last; a failed load changes nothing |
| Proc.Scheduler.Schedule | kernel/InitKernel/proc.c:102-124 | the linked structure makes the transition system's step |
| Proc.Scheduler.Tick | kernel/InitKernel/proc.c:102-124 | the same for a call on behalf of a running process, and nothing before the scheduler is ready |
| Proc.Scheduler.Exit | kernel/EarlyKernel/idt.c:308-318 | the current process becomes a zombie for good and another runs |
| ElfFormat.HeaderCheckSuffices | kernel/Userland/elf64.c:47-52 | for every offset, entry size and count: the check keeps the headers inside every file that passes it if and only if the stated condition on the three fields holds |
| ElfFormat.HeaderBeforeFile | kernel/Userland/elf64.c:47-52 | a table just below 2^64 passes on any file |
| ElfFormat.HeadersInside | kernel/Userland/elf64.c:47-62 | where the check suffices, every header byte that is read is in the file |
| ElfLayout.FileHeaderRead | include/userland/elf64.h:28-43 | of a file header laid out as the gABI has it, the loader reads the entry point, table offset, entry size, count and machine |
| ElfLayout.HeaderChecked | kernel/Userland/elf64.c:31-52 | which headers are refused and why, in their own fields |
| ElfLayout.PhdrRead | include/userland/elf64.h:46-55 | a program header at its place in the table is read as its fields |
| ElfLayout.FlagsRead | include/userland/elf64.h:58-70 | type 1 is loaded, and flag 2 makes a segment writable |
| ElfFormat.PagesExact | kernel/Userland/elf64.c:74-77 | the pages mapped for a segment are those that begin before its end and end after its beginning |
| ElfFormat.PageInside | kernel/Userland/elf64.c:74-75 | every byte of a segment is on one of the pages mapped for it |
| AddressSpace.StoreChanges | kernel/Userland/elf64.c:107-110 | a store changes one byte, pages not sharing frames |
| AddressSpace.MappingKeeps | kernel/Userland/elf64.c:79-91 | mapping a page keeps every byte of the touched pages that have frames of their own and are not taken for the new page or a table |
| AddressSpace.SettledApart | kernel/Userland/elf64.c:77-92 | touched pages that translate to frames out of the allocator's reach, as every load keeps them, are on frames of their own |
| AddressSpace.HoldsEveryProgram | kernel/Userland/elf64.c:95-121 | addresses can hold every program if and only if no two of them share a byte of memory |
| Elf.Loader.Bounds | kernel/Userland/elf64.c:54-62 | base is the lowest segment address and max the highest end |
| Elf.BoundsHoldBytes | kernel/Userland/elf64.c:54-62 | every byte of every segment lies between them |
| Elf.Loader.MapOne | kernel/Userland/elf64.c:77-92 | a page that vmm_is_mapped sees is left alone; any other gets a frame, open to user mode if and only if the levels above allow it, and writable if and only if they do, the segment is, and the page does not begin before it |
| Elf.Loader.MapSegment | kernel/Userland/elf64.c:74-93 | all pages of the segment are mapped, those mapped before unchanged; pages without translation, and the first, get frames with those rights; later pages of a large page that translate already stay on the frames they had |
| Elf.FirstPageWritable | kernel/Userland/elf64.c:81-86 | the first page of a writable segment, if it gets a frame, is writable if and only if the segment is page-aligned and the levels above allow it |
| Elf.NewPageRights | kernel/Userland/elf64.c:81-91 | a page that had no translation is open to user mode if and only if the three levels above it are, and writable if and only if they are, the segment's flags say so and the page does not begin before it |
| Elf.OthersGetNoFrame | kernel/Userland/elf64.c:77-92 | after one page of a 2 MB page is mapped, vmm_is_mapped holds for each of the others, on the frame it had |
| Elf.LowIdentityAfterInit | kernel/InitKernel/vmm.c:253-268 | after vmm_init every page below 4 GB is on the frame of its own number |
| Elf.LowPagesUnsettled | kernel/InitKernel/vmm.c:253-268 | a program there touches frames the allocator may still hand out |
| Elf.SecondPageOfProgram | app/user.ld:8-8 | the second page of a program linked at 4 MB gets no frame |
| Elf.StoredBytesLost | kernel/Userland/elf64.c:77-113 | bytes stored on such a page read as zero once its frame is allocated |
| Elf.Loader.CopySegment | kernel/Userland/elf64.c:95-113 | the chunked copy puts each file byte in place and changes nothing else; a byte outside the file, or a non-canonical address, faults |
| Elf.Loader.ClearRest | kernel/Userland/elf64.c:115-121 | the rest of the segment is zero and nothing else changes |
| Elf.Loader.LoadSegment | kernel/Userland/elf64.c:70-122 | every byte of the segment whose page has a frame of its own is in place, and bytes outside it are kept |
| Elf.Loader.Load | kernel/Userland/elf64.c:19-131 | refused with a header error, or for want of segments, exactly when the file has it; every load of disjoint sound segments with readable headers ends without a fault; on success, if the touched pages end up on frames of their own, none of them a table, byte k of each segment reads through Translate as the file's byte k after the segment's offset, or zero past the file size, with exact bounds |
| ElfFormat.SoundBytes | kernel/Userland/elf64.c:95-121 | what the copy and clear loops put at byte k of a sound segment is that byte |
| LoaderOnVmm.StorePokes | kernel/Userland/elf64.c:107-110 | a store into a frame that is no table keeps every translation and table and changes one byte |
| LoaderOnVmm.ReadsAgree | kernel/InitKernel/vmm.c:165-175 | the byte of the abstract address space is the byte read through Translate |
| LoaderOnVmm.AllocMapGrows | kernel/InitKernel/vmm.c:202-213 | a successful vmm_alloc_map on page tables is exactly the loader's mapping step on the translation, effective rights and bytes |
| LoaderOnVmm.FailedAllocMapGrows | kernel/InitKernel/vmm.c:202-213 | a failed one moves no page and changes no byte in use |

## Left out

- `kcalloc`, `heap_get_stats` and `heap_dump`: easy members over `kmalloc`.
- Locking of the heap (`cli`, `sti`): each operation is one step.
- Heap.KernelHeap.Kfree: not for a pointer into the middle of a block whose bytes there pass the checks; what the code then does depends on the payload.
- Heap.KernelHeap.Krealloc: only for NULL and live pointers; for a freed block the code may copy from it.
- Heap.KernelHeap.HeapCheck: only where following the next words ends; on a circular list the code does not return.
- The boot page tables of `boot/boot.asm`: the page-table results ask for a well-formed tree to start from.
- VirtualMemory.Vmm.Init: asks for such a tree, whose first entry leads to the table that `boot/boot.asm` builds.
- VirtualMemory.Vmm.MapMmio: physical addresses below 2^52, and the window counter does not wrap, as preconditions; the number of frames that suffices is an upper bound.
- FatMount.Mount: asks for at least one sector per cluster, by which the code divides; the buffer for the table is taken to be had.
- `fat32_list_root`, `fat32_update_dir_entry` and `fat32_close`; the second FAT copy and directory attributes.
- The buffers that FAT32 operations take from the heap: a failing `kmalloc` there ends the operation before it changes anything.
- Path resolution and mount points in `vfs.c`; `vfs_open` is modelled from the resolved node on.
- Vfs.Descriptors.Close: without the update of the directory entry and the flush that the node's close does.
- Vfs.Descriptors.WriteNode: asks for a file with clusters; from a first cluster of 0 the code computes a sector outside the data area.
- Vfs.Descriptors.Write: the same.
- 32-bit wrap-around of file positions and sizes: they are natural numbers.
- Fat32.Filesystem.Write: asks for a cursor inside the file's chain, since the code does not check and from any other it would address sectors outside the file; after a disk error it does not say which part of the range was written.
- Fat32.Filesystem.Read: asks for a cursor inside the file's chain, past its end, or of a file without clusters.
- Fat32.Filesystem.Seek: asks for a first cluster that begins a chain, or none.
- Fat32.Filesystem.Create: says what the directory lists only when no write failed and every end mark of the directory comes last, as the FAT32 specification has it.
- exec in the positive scheduler claims, timer ticks, pid wrap-around, user stacks and register frames.
- Proc.Scheduler.Exit: not for idle, for which the transition system shows that the invariant breaks.
- Elf.Loader.Load: a store into a page table ends the model with `TableHit`, which happens to sound segments only if a touched page is on a table's frame; what the machine does afterwards depends on the bytes stored.
- The write protection of user pages against the kernel: the loader's own stores ignore it, as CR0.WP is never set.
- The loader's input buffer is taken not to lie in the pages that are written.
- Port I/O and devices, GDT and IDT encoding, terminal, keyboard, ACPI and APIC code.
