# A verified model of the Jailhouse resource manager

Jailhouse splits a machine into cells: memory pages, CPUs, MMIO regions and shared-memory links
belong to one cell or the other, and a small hypervisor moves them around. This project models the
code that decides who owns what, and the two pieces of the Linux driver that have to agree with it,
and proves what that code guarantees for every input, every run and every interleaving.

`dafny verify dfyconfig.toml` checks all of it.

| file | subject |
|---|---|
| `PageTree.dfy`, `PagingSpec.dfy`, `Paging.dfy`, `PagingApi.dfy` | multi-level page tables with hugepages, against a map from pages to (phys, flags) |
| `Release.dfy`, `Overwrite.dfy` | ranges with holes: which pages an unmapping meets, and what mapping over mapped pages loses |
| `PagePool.dfy` | the bitmap page allocator with its restarting first-fit search |
| `Boot.dfy` | the boot protocol of all CPUs |
| `Shutdown.dfy` | the shutdown handshake, round after round |
| `Console.dfy`, `ConsoleRead.dfy` | the console ring, copied without a lock while it is written, against an unbounded log |
| `Mmio.dfy` | the sorted MMIO index, store by store |
| `RootMemory.dfy`, `Cells.dfy` | cell life cycle: memory and CPUs between the root cell and the others |
| `RootTree.dfy` | the life cycle's memory hooks on the page tables behind them |
| `Coloring.dfy`, `ColoredLoader.dfy` | scattering an image over cache colours |
| `Ivshmem.dfy` | pairing of shared-memory endpoints |
| `Common.dfy`, `Arith.dfy`, `Sets.dfy` | types, arithmetic and counting facts used by several of them |

Code that updates objects, bitmaps, arrays or positions in place is a class or a method with loops.
The protocols are state machines whose steps are single accesses to shared state, taken by any CPU
at any time. Whether architecture hooks, allocations inside other units and user copies succeed,
and what cells answer to messages, is arbitrary; mostly it is an argument, in terms of which answers
are stated. The life cycle does assume that the memory hooks map and unmap exactly
the region when they succeed, and stay inside it when they fail; `RootTree.dfy` says when the page
tables meet that.

## What the proofs brought to light

- **Torn console byte.** `copy_console_page` compares the tail first and re-reads `busy` afterwards.
  A writer that stores a character and then finishes between those two reads leaves an accepted copy
  whose oldest character is already overwritten. A reader that lags by exactly the ring size then
  delivers a wrong byte. `ReadTruthfulIff` and `ReadsAccountForLog` give the exact condition in terms
  of the writer, and `TornReadHappens` continues any run from a quiet moment with a full ring to such
  a read. Every accepted copy still is the page of one instant (`AcceptedIsInstant`).
- **`paging_destroy` ignores alignment.** It clears or skips whole pages without looking whether
  `virt` begins one. On a populated range, in every mode, it is exact if and only if, for each level
  page size up to the size, `virt` is aligned to it or lies under a table of that level
  (`PagingStructures.Destroy`, `DestroyBytes`); otherwise the page before `virt` is lost as well
  (`UnalignedDestroyMisses`). On ARM the unmap hook is this function: a cell whose private region cuts
  hugepages of the root can be created with one of its pages still mapped in the root
  (`PrivatePageStays`); `UnmapHook` gives the exact condition.
- **"Unmap requests that cover only full pages never fail"** (comment at `paging.c`, line 353) holds if
  all pages are mapped. Over a hole the walk strides by the page size of the level where it found
  nothing, and can meet the next page in its middle: it then fails, or succeeds and leaves part of
  it mapped (`HoleBeforeHugepage`). `Destroy` has the exact condition for ranges that cut no page.
- **Failing requests and page-size gaps.** A `paging_create` that runs out of pages keeps all
  translations outside its range if every level below one with pages has pages too. Real modes can
  miss a page size (`hypervisor/arch/x86/vmx.c`, `vtd.c` clear them one by one from capability bits),
  and in every such mode there is a failing request that drops a mapping (`GapLosesMapping`).
- **Overwriting by a hugepage can strand table pages, without any error.** The release of what is
  overwritten frees a subtable as soon as it is empty; a hole behind it is then found one level
  higher, and the larger stride from the middle of that block can step over mapped pages of the next
  one. Their tables stay allocated under the new hugepage (`SparseOverwriteStrands`). `SetPage` and
  `CreateStep` say exactly when nothing is lost: if and only if the strides, computed on the tree
  before the call, meet every mapped page. Wholly mapped and wholly unmapped ranges always qualify
  (`UniformClean`). `Create` has the same for the whole call (`CleanRange`).
- **`page_alloc_aligned`** aligns relative to the pool base; the page number itself is a multiple of
  the alignment if and only if twice the base is (`AbsoluteAlignment`, `AlignedAtPageTwo`).
- **`load_image_colored`** compares the image with the capacity of the whole region, not with what is
  left behind the target address. It returns success although only part was copied, or nothing
  (`ImageBehindRegion`); all bytes are copied if and only if the image fits from the target on
  (`LoadImage`). The capacity is kept in an `int`; the comparison is right for all images if and only if
  the capacity is below 2 GiB (`RoomIsExact`).
- **MMIO accesses at the end of the address space.** The comparison in `find_region` wraps around, so
  an access that reaches 2^64 is given to a region that does not contain it, and unregistering the
  last address removes some region (`HitIsContains`, `Unregister`).
- **Root regions mapped elsewhere.** `unmap_from_root_cell` unmaps at the physical address. A root
  region that is not mapped one to one stays reachable (`ShiftedRootLeaks`, exact condition in
  `UnmapHidesIff`), so the life-cycle results are about root configurations that map one to one.
- **A start that fails half-way.** If taking the loadable memory from the root fails, `cell_start` resumes
  the root only: the cell's CPUs stay suspended, and part of the memory may be gone from the root (`Start`).
- **Unregistering from a full MMIO table.** The last copy of `mmio_region_unregister` reads the slot
  behind the last region, and shows it to lock-free readers until the count drops. In a table with
  room that slot is empty. In a full one it is the memory behind the array, where `mmio_cell_init`
  puts the handlers: readers see a region made of a function and an argument pointer, unless the
  latter is null. `Unregister` has the exact condition, `FullTableExposes` the failing case.
- `ranges_in_mask` reads one element past the mask, which is harmless and modelled.

## Model

| member | source | states |
|---|---|---|
| `Paging.Split` | jailhouse-master_dprem/hypervisor/paging.c:236-261 | success replaces a hugepage by a table that translates every page of it exactly as before, in pages of the next size the mode has; without gaps between page levels it fails only when no page is free and then leaves the hugepage alone; the table page is accounted for |
| `Paging.NextTable` | jailhouse-master_dprem/hypervisor/paging.c:318-333 | the table a walk continues in (existing, freshly allocated or split off a hugepage) translates what the old entry did; a failure leaves the entry as it was when there are no page-size gaps |
| `Paging.SetPage` | jailhouse-master_dprem/hypervisor/paging.c:298-316 | a terminal entry overwrites whatever stood there, touching no other entry and keeping a pruned tree pruned; from a pruned tree no page is lost if and only if the strides of the release meet every page mapped there |
| `Paging.CreateStep` | jailhouse-master_dprem/hypervisor/paging.c:290-340 | one round maps one page of the first level that fits and nothing else, whatever it had to split or allocate; a failing round changes no translation without page-size gaps, and loses no page; a succeeding one loses none if and only if what it overwrites is released completely; it fails only with the pool emptied, and without page-size gaps succeeds if and only if there are as many free pages as the tables this round still misses, none where it meets tables all the way down |
| `Paging.Create` | jailhouse-master_dprem/hypervisor/paging.c:281-343 | on success [v, v+s) maps to p onwards with the new flags and every other page keeps its translation; on failure only a prefix of the range changed; the mutual recursion with paging_destroy and split_hugepage terminates; a successful call on a pruned tree loses no page if and only if all its rounds overwrite cleanly, which is told from the tree before the call; over an unmapped range all other leaves are the same leaves; it fails only when no page is free and, without page-size gaps, the next page still misses a table; it succeeds whenever two pages a level below and page mapped are free |
| `Paging.DestroyStep` | jailhouse-master_dprem/hypervisor/paging.c:368-413 | one round clears one block in every mode, splitting hugepages larger than the rest, gives back every table it emptied, keeps pruned trees pruned, and over a hole changes no leaf and advances by the page size of the level it found nothing at; it fails only with the pool emptied |
| `Paging.Destroy` | jailhouse-master_dprem/hypervisor/paging.c:344-415 | free pages plus tables is conserved; in every mode, success on a populated range clears exactly the range if the first block begins at v and otherwise also unmaps the page before v; a request over mapped pages only, none of them cut, never fails; a request that cuts no page of a pruned tree succeeds and empties the range if and only if its strides meet all pages, and a success changes no leaf outside; it fails if the strides meet a page in its middle with no page to spare, and never fails in a mode without gaps given enough free pages; it fails only when no page is free and, without gaps, a page of the range is left that it would have to cut |
| `PagingSpec.LiftStepClears` | jailhouse-master_dprem/hypervisor/paging.c:373-413 | what clearing does below a table, or below the table a split put there, is what it does to the range seen from the level above |
| `PagingSpec.EvenFits` | jailhouse-master_dprem/hypervisor/paging.c:236-261 | in a table that a split filled, the block to clear depends on the mode and the size only, in modes with and without page-size gaps |
| `Release.SweepStep` | jailhouse-master_dprem/hypervisor/paging.c:368-413 | every round keeps the account of the release: exactly the leaves beyond the position are left, or something will stay behind |
| `Release.StrideFound` | jailhouse-master_dprem/hypervisor/paging.c:373-412 | once everything before is released, the hole is found at the first level whose block has nothing left, so the stride can be told from the tree before the call |
| `Overwrite.UniformClean` | jailhouse-master_dprem/hypervisor/paging.c:298-316 | overwriting what is mapped all over, or not at all, releases everything |
| `Overwrite.CleanAhead` | jailhouse-master_dprem/hypervisor/paging.c:288-340 | whether the next round overwrites cleanly can be told from the tree before the call, whatever earlier rounds split or released |
| `PagingApi.HoleBeforeHugepage` | jailhouse-master_dprem/hypervisor/paging.c:353-355 | a request that covers only full pages: it fails without a free page, and with enough of them leaves a page of the range mapped |
| `PagingApi.SparseOverwriteStrands` | jailhouse-master_dprem/hypervisor/paging.c:298-316 | a three-level table on which one successful hugepage mapping loses table pages |
| `PagingApi.SparseSkips` | jailhouse-master_dprem/hypervisor/paging.c:381-412 | why: the stride from the emptied subtable steps over a mapped page |
| `PageTree.LeavesDetermineTree` | jailhouse-master_dprem/hypervisor/paging.c:396-405 | a tree without empty non-root tables is determined by its leaves |
| `PageTree.LeafExists` | jailhouse-master_dprem/hypervisor/paging.c:396-405 | such a tree has a mapping below every valid entry |
| `PagingApi.OffsetStep` | jailhouse-master_dprem/hypervisor/paging.c:213-226 | the masked index of get_entry with the whole address and the remainder handed down level by level pick the same entries |
| `PagingApi.DestroyableIff` | jailhouse-master_dprem/hypervisor/paging.c:381-412 | the first block begins at v exactly if, for each level page size up to the size, v is aligned to it or lies under a table of that level |
| `PagingApi.FitAligned` | jailhouse-master_dprem/hypervisor/paging.c:381-390 | the page that is split down to or skipped at v begins at v exactly if v is aligned to every page size that still fits |
| `PagingApi.MapThenUnmap` | jailhouse-master_dprem/hypervisor/paging.c:281-415 | mapping an unmapped range of a pruned tree and unmapping it again cannot fail and restores the tree itself and the number of free pages; without page-size gaps the mapping succeeds if two free pages a level are there for each page |
| `PagingApi.GapLosesMapping` | jailhouse-master_dprem/hypervisor/paging.c:236-261 | every mode with pages at one level and none at the next has a tree from its root on which a request failing for lack of pages drops the translation of a page beside the range |
| `PagingApi.CreateBytes` | jailhouse-master_dprem/hypervisor/paging.c:281-343 | the page-wise result in bytes: page(virt)+o maps to page(phys)+o, everything else is unchanged |
| `PagingApi.DestroyBytes` | jailhouse-master_dprem/hypervisor/paging.c:361-415 | in bytes, a destroy of a populated range is exact if and only if the alignment condition holds |
| `PagingApi.UnalignedDestroyMisses` | jailhouse-master_dprem/hypervisor/paging.c:361-415 | two pages from the middle of a hugepage: success, the page before the range is lost and the last page of the range stays |
| `PagingApi.PagingStructures.Virt2Phys` | jailhouse-master_dprem/hypervisor/paging.c:210-228 | the walking loop returns the translation of the tree |
| `PagingApi.PagingStructures.Create` | jailhouse-master_dprem/hypervisor/paging.c:281-343 | whole new translation on success, unchanged translation outside the range on failure (without page-size gaps), used plus free pages conserved, and on a pruned tree no page lost if and only if the range is overwritten cleanly; -ENOMEM only with an empty pool and, without page-size gaps, a table still missing; 0 whenever two pages a level are free for each page mapped |
| `PagingApi.PagingStructures.Destroy` | jailhouse-master_dprem/hypervisor/paging.c:361-415 | in every mode, success on a populated range is exact if and only if the condition a caller can check beforehand holds; used pages and tables change together; -ENOMEM only with an empty pool and, without page-size gaps, a page left to be cut |
| `PagePool.Pool.constructor` | jailhouse-master_dprem/hypervisor/paging.c:563-583 | the pool starts with exactly the reserved pages set and counted |
| `PagePool.Pool.FindNextFree` | jailhouse-master_dprem/hypervisor/paging.c:61-90 | returns the first free page from start on in the whole-word part of the bitmap, or nothing exactly if there is none |
| `PagePool.Pool.SearchFit` | jailhouse-master_dprem/hypervisor/paging.c:102-132 | the restarting search terminates and returns the least congruent start of num free pages, or nothing only if there is none |
| `PagePool.Pool.ExtendBlock` | jailhouse-master_dprem/hypervisor/paging.c:125-132 | how far free pages follow each other, and the first free page behind the break |
| `PagePool.Pool.AllocInternal` | jailhouse-master_dprem/hypervisor/paging.c:102-140 | fails exactly when no aligned fit exists; otherwise marks exactly the least fit, disjoint from all live blocks and all zero in a scrubbing pool; the used count equals the number of set bits |
| `PagePool.Pool.Alloc` | jailhouse-master_dprem/hypervisor/paging.c:151-154 | first fit without alignment |
| `PagePool.Pool.AllocAligned` | jailhouse-master_dprem/hypervisor/paging.c:156-168 | for the documented powers of two: least aligned fit; the page number is a multiple of num if and only if twice the pool base is |
| `PagePool.AlignedAtPageTwo` | jailhouse-master_dprem/hypervisor/paging.c:156-168 | a pool based at page 1 hands out four aligned pages at page 2 |
| `PagePool.MaskIsRemainder` | jailhouse-master_dprem/hypervisor/paging.c:106-123 | masking with a - 1 is the remainder by a, for a power of two a |
| `PagePool.Pool.Free` | jailhouse-master_dprem/hypervisor/paging.c:178-193 | clears and, in a scrubbing pool, zeroes exactly the block; counts follow |
| `PagePool.SkipToAligned` | jailhouse-master_dprem/hypervisor/paging.c:112-115 | moving to the next aligned page skips no fit |
| `PagePool.SkipBroken` | jailhouse-master_dprem/hypervisor/paging.c:125-132 | restarting behind a used page skips no fit |
| `PagePool.SkipUsed` | jailhouse-master_dprem/hypervisor/paging.c:117-123 | restarting at the next free page skips no fit |
| `PagePool.NothingLeft` | jailhouse-master_dprem/hypervisor/paging.c:117-119 | no free page left means no fit at all |
| `PagePool.AbsoluteAlignment` | jailhouse-master_dprem/hypervisor/paging.c:102-123 | when the alignment relative to the pool base is absolute alignment |
| `Boot.NextInv` | jailhouse-master_dprem/hypervisor/setup.c:173-239 | every single step of any CPU keeps the boot invariant |
| `Boot.RunInv` | jailhouse-master_dprem/hypervisor/setup.c:173-239 | the invariant holds in every state of every interleaving of any number of CPUs |
| `Boot.RunSafe` | jailhouse-master_dprem/hypervisor/setup.c:173-239 | one master, elected after all entered; error becomes nonzero at most once; who returns returns it; who activates does so after init_late succeeded and with no error |
| `Boot.RunStable` | jailhouse-master_dprem/hypervisor/setup.c:104-239 | a raised error and a completed init_late are never taken back |
| `Boot.BootVerdict` | jailhouse-master_dprem/hypervisor/setup.c:199-239 | over a whole run, if any CPU returns then none ever activates and all that return give the same error |
| `Boot.ErrorHasCause` | jailhouse-master_dprem/hypervisor/setup.c:199-239 | over every run with named outcomes, the error is raised exactly if a stage failed before, and is the code of that stage |
| `Boot.BootOutcome` | jailhouse-master_dprem/hypervisor/setup.c:173-239 | a CPU that is done is active if and only if no stage of the run fails, and otherwise returned the code of a stage that failed |
| `Boot.NoDeadlock` | jailhouse-master_dprem/hypervisor/setup.c:173-239 | as long as some CPU is neither active nor back, some CPU can get on |
| `Shutdown.NextInv` | jailhouse-master_dprem/hypervisor/control.c:794-876 | every step of a root CPU keeps the invariant of the shutdown handshake |
| `Shutdown.RoundInv` | jailhouse-master_dprem/hypervisor/control.c:794-876 | so does the next round after a refusal |
| `Shutdown.RunSafe` | jailhouse-master_dprem/hypervisor/control.c:794-876 | in every interleaving all CPUs get the same verdict; after -EBUSY every shutdown_state is back to none; shutdown() runs at most once, after all online CPUs reached the barrier and before any returns 0; a CPU returns 0 if only the root cell exists and -EBUSY otherwise, and when all have returned from a round with only the root cell, shutdown() has run once |
| `Shutdown.ShutdownStays` | jailhouse-master_dprem/hypervisor/control.c:794-876 | a shutdown is final over all later rounds |
| `Shutdown.NoDeadlock` | jailhouse-master_dprem/hypervisor/control.c:838-876 | while a root CPU has not returned, some root CPU can move on |
| `Console.WriterNext` | jailhouse-master_dprem/hypervisor/printk.c:26-44 | each memory access of the writer keeps the ring equal to the end of the log, but for the slot being written |
| `Console.ReaderUndisturbed` | jailhouse-master_dprem/hypervisor/printk.c:26-44 | the writer disturbs no running or finished copy |
| `Console.ReaderNext` | jailhouse-master_dprem/driver/main.c:143-158 | each access of the reader keeps the copy invariant |
| `Console.RunInv` | jailhouse-master_dprem/driver/main.c:143-158 | writer and reader invariants hold in every interleaving of their memory accesses |
| `Console.AcceptedIsInstant` | jailhouse-master_dprem/driver/main.c:143-158 | an accepted copy has the tail and content of one single instant of its attempt, and is the ring of a log prefix except perhaps for the oldest character |
| `Console.WrongOldestIff` | jailhouse-master_dprem/driver/main.c:143-158 | that character is wrong if and only if at the instant of the copy the writer had stored another one there and not yet moved the tail |
| `Console.RunGrows` | jailhouse-master_dprem/hypervisor/printk.c:26-44 | the log only grows and later copies show later lengths |
| `Console.TornCopy` | jailhouse-master_dprem/driver/main.c:143-158 | from any quiet moment a copy can be accepted whose oldest character is already overwritten |
| `Console.QuietCopy` | jailhouse-master_dprem/driver/main.c:143-158 | from any quiet moment a reader that is left alone accepts at once and has the last characters of the log, the oldest included |
| `ConsoleRead.DumpDelta` | jailhouse-master_dprem/driver/main.c:261-297 | through 32-bit wrap-around: the exact number of missed bytes and, byte by byte, which ring slots are delivered |
| `ConsoleRead.ConsoleUser.Read` | jailhouse-master_dprem/driver/main.c:779-856 | a read says that there is nothing exactly if the user is at the end of the copied log, reports missed bytes exactly if it lags by more than the ring, and then exactly those in front of the ring, and otherwise delivers as much text as there is and fits; the 32-bit head follows the log position |
| `ConsoleRead.ReadTruthfulIff` | jailhouse-master_dprem/driver/main.c:779-856 | a read in any run delivers the log text from the user position on, if and only if it is not caught: the user lags by exactly the ring and the copy fell between the writer's store and its tail increment; the kind of the answer, the missed count and the length are always exact |
| `ConsoleRead.ReadsAccountForLog` | jailhouse-master_dprem/driver/main.c:779-856 | over any run of writer and reader and any sequence of reads, each byte is delivered or reported as missed once and in order, if and only if no read is caught, and a byte is reported as missed only if it lay in front of the ring of that copy |
| `ConsoleRead.ConsoleUser.ReadSeries` | jailhouse-master_dprem/driver/main.c:779-856 | the same of the code with 32-bit positions, as long as fewer than 2^32 characters lie between the user position and each copy |
| `ConsoleRead.TornReadHappens` | jailhouse-master_dprem/driver/main.c:779-856 | every run that comes to a quiet moment with a full ring can go on to a caught read |
| `Mmio.MmioCell.CopyRegion` | jailhouse-master_dprem/hypervisor/mmio.c:58-74 | copies a slot so that after every store the slot is hidden or complete |
| `Mmio.MmioCell.Register` | jailhouse-master_dprem/hypervisor/mmio.c:86-137 | any region goes to its place by address, or nothing happens at capacity; a valid table stays valid if and only if the region is non-empty, ends below 2^64 and overlaps no other; after every single store each visible slot of nonzero size is one complete region and no earlier region is missing; up to the first store of the shift, searches answer as before |
| `Mmio.MmioCell.Grow` | jailhouse-master_dprem/hypervisor/mmio.c:109-120 | the dummy in the new last slot and the raised count change the answer of no search, since it begins at 2^64 - 1 |
| `Mmio.SearchFinds` | jailhouse-master_dprem/hypervisor/mmio.c:139-161 | over any sorted slots, empty ones allowed, the search answers i exactly if slot i contains the access, for accesses that do not wrap around |
| `Mmio.MmioCell.FindSlot` | jailhouse-master_dprem/hypervisor/mmio.c:139-161 | the searching loop computes that search |
| `Mmio.MmioCell.FindRegion` | jailhouse-master_dprem/hypervisor/mmio.c:139-161 | binary search returns i exactly when region i contains the whole access, -1 exactly when none does; for accesses that wrap around 2^64, a region hit by the wrapped comparison, or -1 exactly when none is |
| `Mmio.MmioCell.Unregister` | jailhouse-master_dprem/hypervisor/mmio.c:171-191 | removes exactly the region containing start, if any, and keeps the table sorted; at the very last address, some region that is hit; after every single store each visible slot of nonzero size is a registered region and no other region is missing, if and only if the slot behind the last region is empty or holds one of them |
| `Mmio.MmioCell.ShiftDown` | jailhouse-master_dprem/hypervisor/mmio.c:178-181 | the same of the copying loop alone |
| `Mmio.FullTableExposes` | jailhouse-master_dprem/hypervisor/mmio.c:178-188 | with a full table and something behind it, readers see a region that was never registered |
| `Mmio.MmioCell.HandleAccess` | jailhouse-master_dprem/hypervisor/mmio.c:206-218 | the access goes to the handler of the one region that contains it, with the offset in it; it is unhandled exactly if no region is hit |
| `Mmio.HitIsContains` | jailhouse-master_dprem/hypervisor/mmio.c:151-157 | the comparison is containment unless the access wraps around; then it hits regions that do not contain it |
| `Mmio.InsertSorted` | jailhouse-master_dprem/hypervisor/mmio.c:101-103 | inserting a disjoint region at the place found keeps the table sorted and disjoint |
| `Mmio.InsertSortedIff` | jailhouse-master_dprem/hypervisor/mmio.c:101-103 | and only such a region does |
| `Mmio.RemoveSorted` | jailhouse-master_dprem/hypervisor/mmio.c:179-188 | removing one keeps it so |
| `Mmio.ContainsUnique` | jailhouse-master_dprem/hypervisor/mmio.c:139-161 | at most one region contains an access |
| `Mmio.TransitConsistent` | jailhouse-master_dprem/hypervisor/mmio.c:58-74 | all views between the stores of one copy are consistent |
| `RootMemory.OverlapIsIntersection` | jailhouse-master_dprem/hypervisor/control.c:278-318 | the overlap computed is exactly the intersection, at the root region's own offset and flags |
| `RootMemory.RemappedAt` | jailhouse-master_dprem/hypervisor/control.c:278-318 | remapping gives the root what it is configured to see of the region and touches nothing else, wherever the root maps it, unless root regions overlap with different targets |
| `RootMemory.RemapToRoot` | jailhouse-master_dprem/hypervisor/control.c:278-318 | failing or not, it only adds translations to pages of the region as the root is configured; without warnings the result is the complete remapping; it fails or warns exactly if the hook fails for some overlapping region |
| `RootMemory.UnmapFromRoot` | jailhouse-master_dprem/hypervisor/control.c:259-276 | removes exactly the region from the root, or part of it on failure, if the hook does |
| `RootTree.UnmapHook` | jailhouse-master_dprem/hypervisor/arch/arm-common/mmu_cell.c:46-51 | the hook is paging_destroy: a success unmaps exactly the region if and only if, fully mapped, it is destroyable, or, cutting no page, all its pages are met; without page-size gaps a destroyable region also fails as assumed; without gaps it succeeds with a free page a level below and page |
| `RootTree.MapHook` | jailhouse-master_dprem/hypervisor/arch/arm-common/mmu_cell.c:21-44 | the hook is paging_create: a success maps exactly the region in every mode, and without page-size gaps a failure stays inside it; without gaps it succeeds with two free pages a level below and page |
| `RootTree.PrivatePageStays` | jailhouse-master_dprem/hypervisor/arch/arm-common/mmu_cell.c:46-51 | a private region in the middle of two hugepages of the root: the hook succeeds and one of its pages is still mapped there |
| `RootMemory.UnmapHidesIff` | jailhouse-master_dprem/hypervisor/control.c:259-276 | the root can reach nothing of the region afterwards, if and only if it had mapped those pages only at their own addresses |
| `RootMemory.ShiftedRootLeaks` | jailhouse-master_dprem/hypervisor/control.c:259-276 | a root region mapped elsewhere stays reachable after it was given away |
| `RootMemory.GiveRegions` | jailhouse-master_dprem/hypervisor/control.c:486-531 | the region loop of cell_create takes exactly the private regions from the root, and only such pages when it fails; it succeeds exactly if all hooks do |
| `RootMemory.ReturnRegions` | jailhouse-master_dprem/hypervisor/control.c:320-369 | the region loop of destruction gives private regions back as configured, and adds no other translation; it warns exactly if a hook fails for a private region |
| `RootMemory.TakeLoadable` | jailhouse-master_dprem/hypervisor/control.c:601-664 | cell_start takes exactly the loadable regions from the root, or some of them on failure; it succeeds exactly if all hooks do |
| `RootMemory.OfferLoadable` | jailhouse-master_dprem/hypervisor/control.c:666-719 | set_loadable gives exactly the loadable regions back to the root as configured; it succeeds exactly if all hooks do |
| `Cells.NextCpu` | jailhouse-master_dprem/hypervisor/control.c:69-76 | the next CPU of the set other than the exception, skipping none |
| `Cells.ForEachCpu` | jailhouse-master_dprem/hypervisor/control.c:69-76 | the iteration visits each CPU of the set but the exception once, in order |
| `Cells.AddedCell` | jailhouse-master_dprem/hypervisor/control.c:474-480 | moving CPUs from the root to a new cell keeps CPU sets a partition that agrees with per_cpu.cell |
| `Cells.RemovedCell` | jailhouse-master_dprem/hypervisor/control.c:326-333 | giving them back does too |
| `Cells.Hypervisor.ExchangeMessage` | jailhouse-master_dprem/hypervisor/control.c:114-166 | a passive, shut-down or failed cell is not waited for and not touched; after as many empty polls as its limit allows, exactly its CPUs are suspended and it is marked failed; false exactly if it answers in time, without approving, and runs on; no other cell state changes |
| `Cells.Hypervisor.ReconfigCompleted` | jailhouse-master_dprem/hypervisor/control.c:180-187 | each cell that is not passive is told once, in order; every state is what its own answer makes of it; exactly the CPUs of cells that time out become suspended, none of them of the root |
| `Cells.Hypervisor.ReconfigOk` | jailhouse-master_dprem/hypervisor/control.c:168-178 | true exactly if no other cell is running locked |
| `Cells.Hypervisor.Admit` | jailhouse-master_dprem/hypervisor/control.c:389-468 | the answer of all checks of cell_create in their order: -EPERM for a locked cell, -EEXIST for a name or id in use, -EBUSY for the CPU of the caller or one outside the root, and the hooks in between |
| `Cells.Hypervisor.Populate` | jailhouse-master_dprem/hypervisor/control.c:470-557 | succeeds exactly if all region hooks do: the cell is listed with its CPUs and memory and all cells are told; otherwise CPUs, list, owners and states are as before and only private pages of the root changed, none if the undoing hooks succeed and the root mapped them as configured |
| `Cells.Hypervisor.Create` | jailhouse-master_dprem/hypervisor/control.c:371-557 | the whole answer in terms of caller, checks and hooks; every exit keeps CPU sets a partition, ids and names distinct, the caller with the root and no root CPU suspended; success lists the cell shut down, its CPUs not suspended, with exactly its CPUs and memory; a failure changes no state and suspends nobody, and an undone one leaves the root mapping as it was; isolation is kept |
| `Cells.Hypervisor.Prologue` | jailhouse-master_dprem/hypervisor/control.c:565-599 | the whole answer: -EPERM outside the root, -EINVAL for the root cell, -ENOENT, -EPERM and nothing changed for a destroy while another cell is running locked, -EPERM if the cell refuses, else 0; what becomes of its state and of suspended CPUs in each case |
| `Cells.Hypervisor.Start` | jailhouse-master_dprem/hypervisor/control.c:601-664 | the whole answer; no state of another cell changes; success sets the one cell running and not loadable, wakes exactly its CPUs, and takes exactly the loadable pages of a loadable cell from the root; if a hook fails, only such pages left, the cell keeps the state it answered with and its CPUs stay suspended; invariants and isolation kept |
| `Cells.Hypervisor.SetLoadable` | jailhouse-master_dprem/hypervisor/control.c:666-719 | the whole answer; no state of another cell changes; unless refused, the one cell is loadable, shut down if it was not loadable before, and exactly its CPUs are no longer suspended; its loadable regions and no others go back to the root; invariants and isolation kept |
| `Cells.Hypervisor.Destroy` | jailhouse-master_dprem/hypervisor/control.c:721-748 | -EPERM and nothing changed while another cell is running locked; -EPERM if the cell refuses; else removes exactly the cell, returns its CPUs and private memory, warning exactly if a hook fails for it, and tells all others; invariants and isolation kept |
| `Cells.Hypervisor.CreateThenDestroy` | jailhouse-master_dprem/hypervisor/control.c:371-748 | a create and destroy restore CPU set and cell list, and the root mapping if the hooks that give memory back succeed; so does a failing create |
| `Cells.Hypervisor.Manage` | jailhouse-master_dprem/hypervisor/control.c:320-748 | over every sequence of management calls, failing or not, and of cells changing their state in between, no private page of a listed cell is mapped in the root unless the cell is loadable and the page may be loaded, if the memory hooks do as assumed |
| `Cells.IsolationAfterCreate` | jailhouse-master_dprem/hypervisor/control.c:486-531 | isolation after a create, complete or undone |
| `Cells.IsolationAfterStart` | jailhouse-master_dprem/hypervisor/control.c:601-664 | isolation after a start, complete or stopped half-way |
| `Cells.IsolationAfterOffer` | jailhouse-master_dprem/hypervisor/control.c:666-719 | isolation after set_loadable |
| `Cells.IsolationAfterDestroy` | jailhouse-master_dprem/hypervisor/control.c:320-369 | isolation after a destroy |
| `Cells.RootRestored` | jailhouse-master_dprem/hypervisor/control.c:278-369 | taking all or some private pages and giving all back as configured restores the root mapping |
| `Coloring.BuildMask` | jailhouse-master_dprem/driver/cell.c:358-360 | colour c is bit MAX_COLORS-1-c of the mask |
| `Coloring.RangesInMask` | jailhouse-master_dprem/include/jailhouse/coloring-common.h:18-35 | the maximal runs of set colours in increasing order, padded with -1, whatever lies behind the mask |
| `Coloring.SetColorsAre` | jailhouse-master_dprem/include/jailhouse/coloring-common.h:15-17 | the list of set colours holds exactly those of the mask, increasing |
| `ColoredLoader.PlaceInFragment` | jailhouse-master_dprem/driver/cell.c:392-403 | inside a run of consecutive colours the bytes of the guest region are consecutive in memory |
| `ColoredLoader.DisjointMasksDisjointBytes` | jailhouse-master_dprem/driver/cell.c:392-403 | two regions with equal start and disjoint masks never share a byte |
| `ColoredLoader.PlaceInjective` | jailhouse-master_dprem/driver/cell.c:392-403 | different guest bytes lie at different addresses |
| `ColoredLoader.PlaceHasColor` | jailhouse-master_dprem/driver/cell.c:392-403 | every byte of the region has one of the set colours |
| `ColoredLoader.LoadFragment` | jailhouse-master_dprem/driver/cell.c:393-484 | copies the part of the image that belongs into one fragment to its place; -EBUSY exactly if mapping it failed |
| `ColoredLoader.LoadStripe` | jailhouse-master_dprem/driver/cell.c:393-484 | the fragments of one stripe in order, ending where the next stripe begins |
| `ColoredLoader.LoadStripes` | jailhouse-master_dprem/driver/cell.c:391-487 | as many bytes are copied as fit between the target and the end of the coloured region |
| `ColoredLoader.CountColors` | jailhouse-master_dprem/driver/cell.c:364-370 | the runs add up to the number of set colours |
| `ColoredLoader.LoadImage` | jailhouse-master_dprem/driver/cell.c:308-488 | picks the first suitable region or sends the caller on; image bytes are written once each, in order, to the place of their stripe and colour and to set colours only; all of them if and only if the image fits from its target on; -EFAULT exactly if some copy faulted; -EBUSY exactly if a mapping failed, at the byte where it did |
| `ColoredLoader.RoomIsExact` | jailhouse-master_dprem/driver/cell.c:364-388 | the comparison with memory_total_size, an int, is the intended one for all image sizes if and only if the room is at most 2^31 - 1 bytes |
| `ColoredLoader.ImageBehindRegion` | jailhouse-master_dprem/driver/cell.c:371-487 | an image for the address right behind a region is reported as loaded and nothing is copied |
| `Ivshmem.Links.Init` | jailhouse-master_dprem/hypervisor/ivshmem.c:317-382 | the exact answer for every state of the link of that bdf; success seats the device beside its matching peer or opens a link on a free page; failure changes nothing; the link invariant is kept |
| `Ivshmem.Links.Exit` | jailhouse-master_dprem/hypervisor/ivshmem.c:426-455 | a live sibling loses its remote and gets one interrupt; otherwise the link and its page go; the link invariant is kept |
| `Ivshmem.Links.InitThenExit` | jailhouse-master_dprem/hypervisor/ivshmem.c:317-455 | joining and leaving again returns the pool and what every other device sees |
| `Ivshmem.Links.Doorbell` | jailhouse-master_dprem/hypervisor/ivshmem.c:77-126 | a doorbell or state write of a device in use interrupts the one other device in use with its bdf, and nobody if there is none |
| `Ivshmem.PeerIsRemote` | jailhouse-master_dprem/hypervisor/ivshmem.c:77-87 | the remote pointer of a device in use leads to its peer, and is null exactly without one |
| `Ivshmem.Deref` | jailhouse-master_dprem/hypervisor/ivshmem.c:426-430 | a live device's endpoint is its own seat, and its remote is the sibling exactly when that is live |
| `Ivshmem.RemoteIsMutual` | jailhouse-master_dprem/hypervisor/ivshmem.c:369-372 | two live devices are each other's remote exactly if they share the bdf, and then agree on region and protocol |
| `Ivshmem.NobodyLeft` | jailhouse-master_dprem/hypervisor/ivshmem.c:443-453 | when all devices have left, no link remains and all pages are free |
| `Ivshmem.AnsweredByLink` | jailhouse-master_dprem/hypervisor/ivshmem.c:337-356 | the link with the device's bdf alone decides the answer |
| `Ivshmem.JoinKeeps` | jailhouse-master_dprem/hypervisor/ivshmem.c:358-372 | joining a link keeps bdfs and pages unique, seats and pointers consistent |
| `Ivshmem.CloseKeeps` | jailhouse-master_dprem/hypervisor/ivshmem.c:443-453 | removing a link does, and frees exactly its page |

## Left out

- Page tables are tree values: update in place, sharing of tables, cache and TLB flushes and entries that are valid but not present are not captured; `mem_pool` appears in the paging model only as a number of free pages.
- PageTree: level sizes are written as quotients and remainders, which is what the masks compute for powers of two.
- Paging.Create: ranges stay inside the address space of the root table; 64-bit wrap-around of addresses and sizes is not modelled.
- Paging.Destroy: ranges that both cut a page and contain holes are not decided, only that nothing is mapped anew and no page is lost.
- PagingApi.PagingStructures.Virt2Phys: the access-flag test is left to the caller, who gets the flags.
- PagePool.Pool.AllocInternal: aligned requests are powers of two, as the code documents; byte addresses are page numbers.
- Boot: init_early, cpu_init and init_late are sequences of stages that may fail at any point; what the stages set up, and the master's shutdown() before an error return, are not modelled.
- Shutdown: management calls happen between rounds, not inside one, and every root CPU calls once per round.
- Console: panic output bypasses the lock and is excluded; messages are character sequences, and formatting in `printk-core.c` is not modelled.
- ConsoleRead.ConsoleUser.Read: waiting for new text, signals, the copy kept after disabling (`last_console`), -EAGAIN, a failing copy to the user (after which the position has moved on) and the wording of the notice about missed bytes are left out.
- ConsoleRead.ConsoleUser.ReadSeries: assumes that at each read fewer than 2^32 characters lie between the user's position and the copy, so a user who lags by k characters has 2^32 - k until the next read.
- Mmio.MmioCell.FindRegion: searches a valid table; an unlocked search during an update is not claimed to find its region. What it can see is stated by Register and Unregister; the memory behind the arrays is one slot of fixed content, where the code has the handler array itself.
- Cells: hypercalls are atomic steps; regions are neither subpage nor coloured; of the communication page only the cell state and the messages sent are modelled, and between two polls a cell changes its state only together with its reply; CPU statistics and failure flags are left out.
- Cells.Hypervisor.Create: a failing memory hook answers -ENOMEM; the unit hooks are one outcome, that of the first to fail.
- Cells.Hypervisor.Manage: assumes that private regions of one configuration are disjoint from all regions of the others, as system configurations must be, and that a successful unmap hook removes exactly its region; the latter is false of unaligned regions, see RootTree.PrivatePageStays.
- RootMemory.UnmapFromRoot: takes the unmap hook as exact on success and confined to the region on failure; RootTree.UnmapHook says when paging_destroy is.
- Cells.Hypervisor.constructor: the life cycle is modelled for root configurations that map one to one, see above.
- ColoredLoader.LoadImage: fragment sizes and start addresses are page multiples; 64-bit addresses do not wrap around; a partial user copy is only reported, its contents are not.
- Ivshmem: register emulation, MSI-X and the configuration space are left out; the list and its pointers are a sequence of links and (page, index) references.
- Not modelled at all, mostly because they would add easy members or talk to hardware: `hypervisor/pci.c`, `driver/pci.c`, `prem.c`, `paging_map_device`, guest page-table access, `manage_colored_regions`, the arbiters, architecture code, sysfs, tools and benchmarks.
