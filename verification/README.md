# Liam_OS kernel model

A Dafny model of the stateful cores of Liam_OS, a hobby kernel in C, and proofs about them. Each
core is modelled twice: as functions of the whole state, about which the laws are proved, and as
classes and methods that update arrays, maps and fields in place as the C code does, each proved
to refine its function. Paging follows the Intel SDM volume 3A, sections 4.3 (32-bit) and 4.5
(4-level); the loader follows chapter 5 of the ELF gABI.

- **i386 memory** (`Pmm32`, `Vmm32`, `HeapBlocks`, `HeapGrowth`, `HeapMachine`, `KernelHeap`): a
  frame allocator, a two-level page table over it, and a first-fit heap of linked block headers
  over both. The heap laws hold over every run of `kmalloc` and `kfree` with arbitrary pointers.
- **x86_64 processes** (`Pmm64`, `Pmm64Boot`, `PageStack64`, `Paging64`, `AddressSpace64`,
  `SpaceInstall64`, `TableWiring64`, `Processes64`, `ProcessFrames64`, `ProcessCreate64`,
  `ProcessRuns64`, `ProcessPids64`, `ProcessSelect64`, `ProcessLaws64`, `ProcessManager64`):
  physical memory is a map from frames to 512 words or 4096 bytes, and the meaning of page tables
  is the hardware walk. Runs interleave the kernel's operations with arbitrary stores by user
  programs.
- **The kernel's window** (`KernelWindow64`, `ProcessWindow64`): the kernel writes a page at the
  address equal to its number, which its tables map only below 1 GiB and outside the code slot at
  4-6 MiB. A creation that gets any other page *strays*: the store faults or lands elsewhere, and
  the model stops there. Which pools and boot maps never stray is stated exactly.
- **Exec** (`Elf64`, `ElfFormat64`, `ElfLoader64`, `Exec64`, `ExecCall64`): from the bytes of a file
  to the bytes the new process reads; `ElfFormat64` is an encoder the reading is checked against.
- **Kernel page tables and boot** (`PagingBuilder64`, `TableBuilder64`, `Boot64`): what the builder
  makes, for every address, and the state boot leaves for the process manager.
- **i386 scheduler** (`RoundRobin`, `Tasks32`, `TaskStacks32`, `TaskCalls32`, `TaskRepair32`,
  `TaskRuns32`, `TaskFairness32`, `TaskEffects32`, `TaskDispatch32`, `Scheduler32`): over the
  modelled heap, with an unbounded clock of which the kernel sees the low 32 bits.
- **Queues** (`CyclicBuffer`, `InputEvents64`, `ChildStatus64`) and **path names** (`PathNames64`).
- `Finite` holds facts about finite sets and duplicate-free lists; `MachineWords`, `UserLayout64`
  and `Wrappers` hold the shared constants, the window and `Option`.

Where a law fails for some inputs, the model keeps the code and the law is stated with its exact
condition: frame allocation near the top of the address space (`StaysInsideExactly`), heap
requests that wrap (`KmallocWellFormedExactly`), heap walks past 4096 blocks
(`OneGrowthSuffices`, `Audit`), tasks 2^32 ticks after their last run (`QueuedExactly`, with
`LateMissed`), boot regions that overlap or round over (`InitDistinctExactly`,
`OffersAboveReserved`), pages the kernel cannot write (`NeverStraysExactly`, with a 7 MiB map in
`SmallMapStrays`), the pid counter at zero (`CreationReported`), a kernel not loaded on a
2 MiB boundary (`AliasExactly`), sleeps beyond half the tick range (`SleepNotEarlyExactly`),
repair of a sleeper whose wake tick is zero (`RepairWakesExactly`), repair of a stack top without
a base (`RepairExact`), the audit of a running scheduler (`AuditExactly`), readers more than 64
events behind (`LosesExactly`), and paths that go up from below the first level
(`ResolvesExactly`).

Conventions. Page 0, pointer 0, pid 0 and id 0 are failure results, as in the source. A failed
kernel assertion halts the machine, so operations that can fail one return `None` (or
`running == false`). Words are natural numbers with their wrap-around written out where the code
relies on it. Inputs that come from outside are parameters: the boot memory map, the kernel's
load address and size, the framebuffer, the file an executable path resolves to, the clock.

`dafny verify dfyconfig.toml` checks everything.

## Model
| member | source | states |
|---|---|---|
| `Pmm32.AllocatedCountsHeld` | core/kernel/memory/pmm.c:128-204 | `allocated_pages` is the number of frames handed past `allocation_start` and not returned |
| `Pmm32.AllocFresh` | core/kernel/memory/pmm.c:128-156 | an allocation fails and changes nothing, or returns a frame inside the region that nobody holds |
| `Pmm32.AllocExactly` | core/kernel/memory/pmm.c:128-156 | an allocation fails if and only if the free stack and the rest of the region hold no page, and otherwise uses up one |
| `Pmm32.FreeExact` | core/kernel/memory/pmm.c:158-204 | under any argument: only an outstanding frame is accepted, it leaves exactly the held set, and the decrement guard is always true |
| `Pmm32.AllocUndoesFree` | core/kernel/memory/pmm.c:128-204 | the frame freed last is handed out next, and that restores the state before the free |
| `Pmm32.RunValid` | core/kernel/memory/pmm.c:128-204 | after any sequence of allocations and arbitrary frees the stack is duplicate-free, aligned, below the bump pointer, and the counters add up |
| `Pmm32.StaysHeld` | core/kernel/memory/pmm.c:128-204 | a held frame stays held over any run that does not free it |
| `Pmm32.NoDoubleHandOut` | core/kernel/memory/pmm.c:128-204 | over every run no outstanding frame is returned again |
| `Pmm32.StaysInsideExactly` | core/kernel/memory/pmm.c:140-156 | allocation stays inside the region if and only if the region ends below 0xFFFFF000; otherwise the wrapping comparison hands out the last page |
| `Pmm32.FrameAllocator.constructor` | core/kernel/memory/pmm.c:37-104 | the allocator over one boot region starts empty |
| `Pmm32.FrameAllocator.AllocPage` | core/kernel/memory/pmm.c:128-156 | the array-backed allocation refines the allocation function |
| `Pmm32.FrameAllocator.FreeStackContains` | core/kernel/memory/pmm.c:24-35 | the scan finds a page exactly when it is on the stack |
| `Pmm32.FrameAllocator.FreePage` | core/kernel/memory/pmm.c:158-204 | the in-place free refines the free function |
| `Vmm32.RaiseUser` | core/kernel/memory/vmm.c:72-106 | setting USER in a directory word changes no page's translation or effective rights |
| `Vmm32.InstallTable` | core/kernel/memory/vmm.c:72-106 | installing an empty table changes no page's translation |
| `Vmm32.GetOrCreateOk` | core/kernel/memory/vmm.c:72-106 | obtaining a table keeps the invariant that a USER table entry has a USER directory entry, and every translation |
| `Vmm32.SetEntry` | core/kernel/memory/vmm.c:127-221 | writing one word of a table changes exactly one page's translation |
| `Vmm32.MapRefines` | core/kernel/memory/vmm.c:127-181 | mapping refines an update of a finite map from pages to frame and rights; every other page keeps frame and effective rights; it fails only for want of a table |
| `Vmm32.MapDirectory` | core/kernel/memory/vmm.c:72-106 | a mapping makes the directory word above the page present and no other, and the counter counts the tables added |
| `Vmm32.UnmapRefines` | core/kernel/memory/vmm.c:183-221 | unmapping refines removal of one key and reports whether it was there |
| `Vmm32.MapUnmapInverse` | core/kernel/memory/vmm.c:127-221 | unmapping undoes the mapping of a page that was not mapped |
| `Vmm32.LookupAfterMap` | core/kernel/memory/vmm.c:127-181 | a lookup after a map sees the new frame there and the old answers elsewhere |
| `Vmm32.PageMapper.constructor` | core/kernel/memory/vmm.c:108-125 | the mapper starts from the directory paging was enabled with |
| `Vmm32.PageMapper.GetOrCreateTable` | core/kernel/memory/vmm.c:72-106 | the in-place version refines the function |
| `Vmm32.PageMapper.Map` | core/kernel/memory/vmm.c:127-181 | the in-place version refines the function |
| `Vmm32.PageMapper.Unmap` | core/kernel/memory/vmm.c:183-221 | the in-place version refines the function |
| `Vmm32.PageMapper.IsMapped` | core/kernel/memory/vmm.c:223-243 | true exactly for pages in the abstract map |
| `Vmm32.PageMapper.GetPhysicalAddress` | core/kernel/memory/vmm.c:245-272 | the frame of the abstract map plus the offset, 0 when unmapped |
| `HeapBlocks.TilesOrdered` | core/kernel/memory/heap.c:221-271 | blocks stay inside the tiled range in address order and never overlap |
| `HeapBlocks.LiveDisjoint` | core/kernel/memory/heap.c:480-548 | two live blocks share no byte |
| `HeapBlocks.TakeKeeps` | core/kernel/memory/heap.c:221-244 | splitting and marking the first fit keeps the tiling and leaves no two free neighbours |
| `HeapBlocks.TakeGains` | core/kernel/memory/heap.c:480-520 | taking adds exactly one live block: 8-aligned, large enough, disjoint from all others, at the lowest fit |
| `HeapBlocks.TakeTight` | core/kernel/memory/heap.c:221-244 | a taken block keeps at most 32 bytes more than asked for; what is cut off is one free block right behind it |
| `HeapBlocks.ZeroRequest` | core/kernel/memory/heap.c:221-244 | a request rounded to zero breaks the tiling exactly when the block is big enough to split |
| `HeapBlocks.MergeKeeps` | core/kernel/memory/heap.c:246-271 | coalescing keeps the tiling and the live blocks and leaves no two free neighbours within the walk |
| `HeapBlocks.ReleaseKeeps` | core/kernel/memory/heap.c:522-548 | releasing removes exactly one live block and keeps tiling and coalescing |
| `HeapBlocks.ReleaseUndoesTake` | core/kernel/memory/heap.c:480-548 | freeing what was just taken restores the block list exactly |
| `HeapBlocks.ReleaseCharacterised` | core/kernel/memory/heap.c:246-271 | within the walk limit the result of a free is the only coalesced tiling with the remaining live blocks |
| `HeapBlocks.CanonicalUnique` | core/kernel/memory/heap.c:246-271 | a coalesced tiling is determined by its range and its live blocks |
| `HeapBlocks.GrowShape` | core/kernel/memory/heap.c:406-437 | growth in closed form: the new pages become one free block, joined to a free last block |
| `HeapBlocks.GrowthSuffices` | core/kernel/memory/heap.c:310-437 | after a growth by enough pages a fitting block is visible exactly when the walk limit leaves room |
| `HeapBlocks.VisitedAccountsForAll` | core/kernel/memory/heap.c:128-164 | payload bytes and headers the bounded walk counts are the whole range exactly when it sees every block |
| `HeapGrowth.MapPagesGrew` | core/kernel/memory/heap.c:344-404 | the page loop maps each new page to its own fresh frame, none of them a page table, and touches no other mapping |
| `HeapGrowth.MapPagesExactly` | core/kernel/memory/heap.c:344-404 | the page loop completes if and only if the allocator has a frame for every page and for every page table missing under them |
| `HeapGrowth.RollbackShrank` | core/kernel/memory/heap.c:290-308 | rollback unmaps exactly the new pages and returns exactly their frames |
| `HeapGrowth.FailedGrowthUndone` | core/kernel/memory/heap.c:290-404 | a failed growth leaves every mapping as it was and returns every data frame; only new page-table frames stay |
| `HeapMachine.GrowAllOrNothing` | core/kernel/memory/heap.c:310-437 | growth appends the pages asked for, or leaves blocks, range and heap mappings alone |
| `HeapMachine.GrowExactly` | core/kernel/memory/heap.c:310-437 | growth succeeds if and only if the request with its header needs at most sixteen pages, they fit the range, and the allocator has a frame for each of them and for each missing page table |
| `HeapMachine.KmallocCorrect` | core/kernel/memory/heap.c:480-520 | for every size that does not wrap: the heap stays well formed and gains one live block holding the request, or the live blocks stay |
| `HeapMachine.KmallocWellFormedExactly` | core/kernel/memory/heap.c:480-520 | for every size the heap stays well formed if and only if the size does not wrap or the lowest free block is too small to split |
| `HeapMachine.KmallocFailsExactly` | core/kernel/memory/heap.c:480-520 | it fails if and only if a chain of successful growths from the given state leads to one in which no visited free block is large enough and the range or the allocator cannot supply the pages, and that is the state it leaves |
| `HeapMachine.KmallocExactly` | core/kernel/memory/heap.c:480-520 | for every size that does not wrap it succeeds if and only if a visited free block is large enough, or the request fits sixteen pages, the walk has room and range and allocator can supply pages and page tables |
| `HeapMachine.LowestTaken` | core/kernel/memory/heap.c:492-512 | when a visited block is large enough the lowest such block is taken, without growth |
| `HeapMachine.InitializesExactly` | core/kernel/memory/heap.c:439-478 | initialisation succeeds if and only if the allocator has a frame for the first page and, if missing, for its page table |
| `HeapMachine.FreshServes` | core/kernel/memory/heap.c:439-520 | with eighteen frames the heap initialises and then serves any request of up to 65520 bytes |
| `HeapMachine.KmallocFreeable` | core/kernel/memory/heap.c:480-520 | what it returns is within the bounded walk, so the pointer check and kfree accept it |
| `HeapMachine.OneGrowthSuffices` | core/kernel/memory/heap.c:480-520 | a request fitting 16 pages with its header is served after one growth, exactly when the walk limit leaves room |
| `HeapMachine.KmallocMonotone` | core/kernel/memory/heap.c:480-520 | the heap range never shrinks, which is what the recursion decreases against |
| `HeapMachine.KfreeExact` | core/kernel/memory/heap.c:522-548 | a live payload pointer removes exactly its block; any other argument changes nothing |
| `HeapMachine.KfreeUndoesKmalloc` | core/kernel/memory/heap.c:480-548 | freeing what was just allocated without growth restores the whole state |
| `HeapMachine.InitializeValid` | core/kernel/memory/heap.c:439-478 | initialisation over an unmapped range gives a well-formed heap of one free block |
| `HeapMachine.BlankStart` | core/kernel/memory/vmm.c:108-125 | a blank directory over any boot region is a valid starting point for the heap |
| `HeapMachine.RunKeepsHeap` | core/kernel/memory/heap.c:480-548 | after any run of allocations and frees of arbitrary pointers: tiled, coalesced, backed by distinct frames, and used + free + 16 per block equals the range |
| `HeapMachine.LiveUntilFreed` | core/kernel/memory/heap.c:480-548 | a live block keeps place and size over any run that does not free its pointer |
| `KernelHeap.Heap.constructor` | core/kernel/memory/heap.c:439-478 | the empty heap before initialisation |
| `KernelHeap.Heap.FindLastBlock` | core/kernel/memory/heap.c:166-181 | the walk over next links ends at the last block |
| `KernelHeap.Heap.RollbackGrowth` | core/kernel/memory/heap.c:290-308 | the in-place rollback refines the function |
| `KernelHeap.Heap.RecalculateStats` | core/kernel/memory/heap.c:128-164 | the counters become the used and free bytes the walk sees |
| `KernelHeap.Heap.FindBlockForPointer` | core/kernel/memory/heap.c:183-219 | the header whose payload is the pointer, 0 when there is none |
| `KernelHeap.Heap.MergeFreeBlocks` | core/kernel/memory/heap.c:246-271 | rewriting headers and links in place yields the merged list |
| `KernelHeap.Heap.GrowOnePage` | core/kernel/memory/heap.c:344-404 | one turn of the growth loop links one page block |
| `KernelHeap.Heap.MapNewPages` | core/kernel/memory/heap.c:344-404 | the growth loop refines the function |
| `KernelHeap.Heap.ExtendRange` | core/kernel/memory/heap.c:333-404 | claims the pages or undoes everything |
| `KernelHeap.Heap.AbsorbPages` | core/kernel/memory/heap.c:406-437 | the new pages join the list and are coalesced |
| `KernelHeap.Heap.Grow` | core/kernel/memory/heap.c:310-437 | the in-place growth refines the function |
| `KernelHeap.Heap.Initialize` | core/kernel/memory/heap.c:439-478 | the in-place initialisation refines the function |
| `KernelHeap.Heap.TakeBlock` | core/kernel/memory/heap.c:221-244 | the in-place split refines the function |
| `KernelHeap.Heap.FindFit` | core/kernel/memory/heap.c:492-512 | the search loop finds the first fit |
| `KernelHeap.Heap.Kmalloc` | core/kernel/memory/heap.c:480-520 | the in-place allocation over linked headers refines the function |
| `KernelHeap.Heap.Kfree` | core/kernel/memory/heap.c:522-548 | the in-place free refines the function |
| `KernelHeap.Heap.ReleaseBlock` | core/kernel/memory/heap.c:522-548 | marking free and coalescing in place refines the function |
| `KernelHeap.Heap.Audit` | core/kernel/memory/heap.c:602-699 | in every well-formed heap the audit reports an issue exactly when the heap is uninitialised or has more than 4096 blocks |
| `Pmm64.FreeCount` | core/kernel/arch/x86_64/pmm.c:98-132 | free pages plus held pages is the number of pages in the pool |
| `Pmm64.AllocSplits` | core/kernel/arch/x86_64/pmm.c:98-105 | an allocation fails exactly on an empty stack, else moves one page nobody held to its holder |
| `Pmm64.FreeSplits` | core/kernel/arch/x86_64/pmm.c:107-132 | a page its holder frees is always accepted |
| `Pmm64.FreeExactly` | core/kernel/arch/x86_64/pmm.c:107-132 | a page of the pool is accepted if and only if it is held; any other page if and only if it is aligned, within the bounds seen at boot and a tracked place is vacant; the page freed last is handed out next |
| `Pmm64.AllocManySplits` | core/kernel/arch/x86_64/pmm.c:98-105 | the results of a run of allocations are distinct new holdings; a zero appears exactly when the stack runs out |
| `Pmm64.FreeAllSplits` | core/kernel/arch/x86_64/pmm.c:107-132 | freeing a list of held pages returns exactly those |
| `Pmm64Boot.AllPagesExactly` | core/kernel/arch/x86_64/pmm.c:43-96 | a page is offered if and only if it is a whole page, above the reserved end, of an available region that does not run past the last address; a region starting so high that its start wraps to zero offers pages below itself |
| `Pmm64Boot.OffersAboveReserved` | core/kernel/arch/x86_64/pmm.c:65-96 | a region offers only pages above the kernel if and only if its start does not round up past 2^64 |
| `Pmm64Boot.AllPagesDistinct` | core/kernel/arch/x86_64/pmm.c:43-96 | the pages offered are all different if and only if no two regions share a page |
| `Pmm64Boot.InitDistinctExactly` | core/kernel/arch/x86_64/pmm.c:65-96 | for every map the stack boot leaves is duplicate-free if and only if every page two regions share comes, the second time, past the 65536 pages tracked |
| `Pmm64Boot.InitSplits` | core/kernel/arch/x86_64/pmm.c:24-96 | boot leaves the first 65536 offered pages on the stack, each once, none below the kernel's end, nothing held |
| `PageStack64.PageStack.constructor` | core/kernel/arch/x86_64/pmm.c:65-96 | the loop over regions refines the initialisation function |
| `PageStack64.PageStack.TrackPage` | core/kernel/arch/x86_64/pmm.c:24-41 | the in-place version refines the function |
| `PageStack64.PageStack.TrackPages` | core/kernel/arch/x86_64/pmm.c:43-52 | the page loop refines the function |
| `PageStack64.PageStack.AllocPage` | core/kernel/arch/x86_64/pmm.c:98-105 | the in-place version refines the function |
| `PageStack64.PageStack.AlreadyFree` | core/kernel/arch/x86_64/pmm.c:54-63 | the scan finds a page exactly when it is on the stack |
| `PageStack64.PageStack.FreePage` | core/kernel/arch/x86_64/pmm.c:107-132 | the in-place version refines the function and reports acceptance |
| `AddressSpace64.PlaceRanges` | core/kernel/arch/x86_64/process.c:107-125 | the table indices split the address space into the code pages, the stack page and the rest |
| `AddressSpace64.WalkOf` | core/kernel/arch/x86_64/process.c:214-235 | every address: own code and stack pages with user rights, holes unmapped, everything else exactly as in the kernel's tables |
| `AddressSpace64.UserReachesExactly` | core/kernel/arch/x86_64/process.c:563-654 | the frames reachable with USER at all four levels are exactly the mapped code pages and the stack page |
| `AddressSpace64.ValidationsPass` | core/kernel/arch/x86_64/process.c:178-212 | over sound kernel tables both of the kernel's checks always pass on a built space |
| `AddressSpace64.ValidatedWalks` | core/kernel/arch/x86_64/process.c:504-561 | of any tables the check passes on, large pages apart: user mode reaches every listed code page and the stack page, and the kernel's windows translate as in the kernel's tables |
| `SpaceInstall64.InstalledBuilt` | core/kernel/arch/x86_64/process.c:563-654 | installing a space builds its tables and leaves the kernel's tables sound |
| `TableWiring64.WiredFrames` | core/kernel/arch/x86_64/process.c:563-590 | the word-by-word wiring changes exactly the six tables, each as listed |
| `TableWiring64.FirstWiring` | core/kernel/arch/x86_64/process.c:592-654 | clearing, cloning and wiring fresh pages in the source's order equals installing the space |
| `TableWiring64.SecondWiring` | core/kernel/arch/x86_64/process.c:843-862 | loading an image into a built space and wiring it again equals installing the image |
| `ProcessFrames64.InstallSpace` | core/kernel/arch/x86_64/process.c:592-654 | over pool frames both checks pass and no other frame changes |
| `ProcessFrames64.SpaceRunsOut` | core/kernel/arch/x86_64/process.c:592-623 | with too few pages nothing is taken and the slot stays empty |
| `ProcessFrames64.AcquireStrays` | core/kernel/arch/x86_64/process.c:90-93 | if one of the pages about to be written lies outside the window the kernel writes through, its store misses the page |
| `ProcessFrames64.StackRunsOut` | core/kernel/arch/x86_64/process.c:462-481 | with no page left for the kernel stack the address space is given back |
| `ProcessFrames64.AcquireSucceeds` | core/kernel/arch/x86_64/process.c:592-654 | twelve free pages within the window suffice; they are the topmost of the stack, distinct, were free, and only they are written |
| `ProcessCreate64.CreateKernelExact` | core/kernel/arch/x86_64/process.c:754-797 | creation strays exactly when it gets to write a page outside the window; otherwise it takes exactly the twelve topmost pages, or leaves table and free count alone, and succeeds exactly with an entry, a free slot and twelve pages |
| `ProcessCreate64.CreateUserExact` | core/kernel/arch/x86_64/process.c:799-887 | the same for user processes, whose pages then hold the image; short of straying it fails only for a bad image, a full table or too few pages |
| `ProcessCreate64.ReapSlotExact` | core/kernel/arch/x86_64/process.c:910-928 | reaping empties the slot, puts its twelve pages on top of the stack and writes nothing |
| `ProcessRuns64.Conserved` | core/kernel/arch/x86_64/process.c:754-928 | free pages + 12 * live processes is the size of the pool in every state satisfying the invariant |
| `ProcessRuns64.StoreKeeps` | core/kernel/arch/x86_64/process.c:563-590 | a user program's store through its own tables keeps the invariant and writes only its own pages |
| `ProcessRuns64.RanKeeps` | core/kernel/arch/x86_64/process.c:1136-1165 | a kernel process that ran leaves arbitrary bytes in its kernel stack page and changes no other frame |
| `ProcessRuns64.StepKeeps` | core/kernel/arch/x86_64/process.c:754-1165 | create, exit, reap, run and user stores each keep the invariant and write only free pages, the storing process's user pages or the running process's kernel stack page; only a creation that gets to a page outside the window strays |
| `ProcessRuns64.RunConserves` | core/kernel/arch/x86_64/process.c:754-1165 | over every run that does not stray no frame is lost or gained and nothing outside the pool changes, whatever programs store |
| `ProcessRuns64.Isolated` | core/kernel/arch/x86_64/process.c:563-654 | what one live process reaches in user mode no other does, and it is no page table, kernel stack or kernel page |
| `ProcessRuns64.KernelViewShared` | core/kernel/arch/x86_64/process.c:214-235 | outside the code slot and the second GiB a process translates exactly as the kernel's tables |
| `ProcessRuns64.RunUndisturbed` | core/kernel/arch/x86_64/process.c:754-1165 | over every run that does not stray, in which a process neither stores, runs nor is reaped, it stays and every byte of its pages stays |
| `ProcessRuns64.SameUserView` | core/kernel/arch/x86_64/process.c:563-654 | and then every user address reads the same byte with the same rights |
| `ProcessRuns64.ReapUndoesCreate` | core/kernel/arch/x86_64/process.c:799-928 | reaping what was just created restores the table and the set of free pages |
| `ProcessRuns64.KernelSlotsAccumulate` | core/kernel/arch/x86_64/process.c:910-944 | no run ever empties a live kernel process's slot: only user processes are reaped |
| `ProcessWindow64.RunClear` | core/kernel/arch/x86_64/process.c:754-1165 | while every page above the spare ones at the bottom of the stack lies in the window, no run strays, and that stays so |
| `ProcessWindow64.NeverStraysExactly` | core/kernel/arch/x86_64/process.c:754-1165 | no run whatever strays if and only if every page above the spare ones lies in the window: spare are the pages a full table of 64 leaves over, or a rest too small for an address space |
| `KernelWindow64.KernelReachesExactly` | core/kernel/arch/x86_64/process.c:90-93 | under the kernel's tables every byte of a page is reached at the page's own address if and only if the page ends by 1 GiB and lies outside 4-6 MiB |
| `KernelWindow64.ProcessReachesExactly` | core/kernel/arch/x86_64/process.c:90-93 | the same under the tables of every live process |
| `KernelWindow64.StoresLandExactly` | core/kernel/arch/x86_64/process.c:90-93 | at every moment of a creation, with any free pages already written and whichever of these tables active, a store at a free page's address lands in it if and only if it lies in the window |
| `KernelWindow64.RunIntact` | core/kernel/arch/x86_64/process.c:754-1165 | the kernel's own tables survive every run that does not stray |
| `KernelWindow64.BuilderStoresLandExactly` | core/kernel/arch/x86_64/boot32.asm:78-101 | on the boot code's tables the builder's stores land in a page if and only if it ends by 1 GiB |
| `KernelWindow64.UserRangeExactly` | core/kernel/arch/x86_64/syscall_dispatch.h:112-132 | the system-call check accepts a range if and only if it lies between the code base and the canonical limit |
| `KernelWindow64.AcceptedEndsExactly` | core/kernel/arch/x86_64/syscall_dispatch.h:112-132 | a supervisor access at an accepted address ends outside the caller's own user pages if and only if it names, between 6 MiB and 1 GiB, a page that is not one of them |
| `KernelWindow64.AcceptedElsewhere` | core/kernel/arch/x86_64/syscall_dispatch.h:764-784 | for every live process there is such an accepted address |
| `ProcessRuns64.InitialInv` | core/kernel/arch/x86_64/process.c:726-752 | an empty table over sound kernel tables satisfies the invariant |
| `ProcessPids64.RunPids` | core/kernel/arch/x86_64/process.c:777-778 | while fewer than 2^32 pids are issued, live pids are nonzero and unique over every run |
| `ProcessPids64.PidFindsSlot` | core/kernel/arch/x86_64/process.c:347-356 | a unique pid finds its own slot |
| `ProcessPids64.CreationReported` | core/kernel/arch/x86_64/process.c:754-797 | the result is nonzero if and only if the creation succeeds and the pid counter is not at zero |
| `ProcessPids64.ReapAllExact` | core/kernel/arch/x86_64/process.c:930-944 | with unique pids the scan clears exactly the user processes that exited or failed, counts them and returns twelve pages each |
| `ProcessSelect64.NoStarvation` | core/kernel/arch/x86_64/process.c:358-394 | a process eligible at 64 consecutive selections is selected among them |
| `ProcessLaws64.MarkExitedExactly` | core/kernel/arch/x86_64/process.c:889-908 | with unique pids, marking sets life and exit code of the user process with the pid and nothing else; a kernel process or an unknown pid changes nothing |
| `ProcessLaws64.ReapExactly` | core/kernel/arch/x86_64/process.c:910-928 | with unique pids, reaping empties the slot and returns its twelve pages if and only if it is a user process that exited or failed; otherwise the whole state stays |
| `ProcessLaws64.CreateExitReap` | core/kernel/arch/x86_64/process.c:799-928 | over create, exit and reap: the new process cannot be reaped before it exits, carries its exit code then, and reaping leaves an empty slot and the free pages as before |
| `ProcessLaws64.RunExactly` | core/kernel/arch/x86_64/process.c:1136-1165 | a ready kernel process with an entry runs to exit code 0 and leaves its bytes in its stack page; no other slot is run |
| `ProcessLaws64.UserCreationReported` | core/kernel/arch/x86_64/process.c:799-887 | a pid is returned if and only if the image has 1 to 16384 bytes on one to four pages with the entry inside them, a slot and twelve reachable pages are free, and the pid counter is not at zero |
| `ProcessLaws64.StoreReadBack` | core/kernel/arch/x86_64/process.c:563-590 | a user store through a writable address is read back there and nowhere else; any other store does nothing |
| `ProcessLaws64.SelectsWaiting` | core/kernel/arch/x86_64/process.c:358-394 | selection picks the first waiting process at or after the cursor, and none if and only if none waits |
| `ProcessLaws64.CreatedWaits` | core/kernel/arch/x86_64/process.c:754-887 | a process just created waits to be selected |
| `ProcessManager64.ProcessManager.constructor` | core/kernel/arch/x86_64/process.c:726-752 | the manager starts in a state satisfying the invariant |
| `ProcessManager64.ProcessManager.TakePages` | core/kernel/arch/x86_64/process.c:594-604 | the allocation sequence refines the function |
| `ProcessManager64.ProcessManager.FreePages` | core/kernel/arch/x86_64/process.c:408-439 | the frees refine the function, zeros skipped |
| `ProcessManager64.ProcessManager.ReleaseAddressSpace` | core/kernel/arch/x86_64/process.c:408-460 | refines the function on the whole state |
| `ProcessManager64.ProcessManager.ReleaseKernelStack` | core/kernel/arch/x86_64/process.c:483-496 | refines the function on the whole state |
| `ProcessManager64.ProcessManager.CopyTable` | core/kernel/arch/x86_64/process.c:81-88 | the copy loop writes exactly the source's words |
| `ProcessManager64.ProcessManager.CloneKernelMappings` | core/kernel/arch/x86_64/process.c:214-235 | refines the cloning function |
| `ProcessManager64.ProcessManager.WireTables` | core/kernel/arch/x86_64/process.c:563-590 | the stores and the code-page loop refine the wiring function |
| `ProcessManager64.ProcessManager.ValidateUserPageTables` | core/kernel/arch/x86_64/process.c:504-561 | the loop and conjunction decide exactly the check |
| `ProcessManager64.ProcessManager.BuildUserPageTables` | core/kernel/arch/x86_64/process.c:563-590 | wires and records both verdicts |
| `ProcessManager64.ProcessManager.ClearSpace` | core/kernel/arch/x86_64/process.c:625-637 | clears exactly the eleven pages |
| `ProcessManager64.ProcessManager.AllocateAddressSpace` | core/kernel/arch/x86_64/process.c:592-654 | the clear, clone and wire steps refine the function on the whole state |
| `ProcessManager64.ProcessManager.AllocateKernelStack` | core/kernel/arch/x86_64/process.c:462-481 | refines the function on the whole state |
| `ProcessManager64.ProcessManager.AcquireFrames` | core/kernel/arch/x86_64/process.c:822-830 | both resources or neither, unless a store strays |
| `ProcessManager64.ProcessManager.FindUnusedProcess` | core/kernel/arch/x86_64/process.c:336-345 | the first unused slot |
| `ProcessManager64.ProcessManager.FindProcessByPid` | core/kernel/arch/x86_64/process.c:347-356 | the first live slot with the pid |
| `ProcessManager64.ProcessManager.Create` | core/kernel/arch/x86_64/process.c:754-797 | keeps the invariant and refines creation |
| `ProcessManager64.ProcessManager.MarkUserExited` | core/kernel/arch/x86_64/process.c:889-908 | keeps the invariant, refines exit, and reports it |
| `ProcessManager64.ProcessManager.ReapUser` | core/kernel/arch/x86_64/process.c:910-928 | keeps the invariant, refines reaping, and reports it |
| `ProcessManager64.ProcessManager.ReapExitedUserProcesses` | core/kernel/arch/x86_64/process.c:930-944 | the loop refines the scan and returns its count |
| `ProcessManager64.ProcessManager.FindEligible` | core/kernel/arch/x86_64/process.c:358-394 | the cyclic scan is the round-robin selection |
| `ProcessManager64.ProcessManager.FindNextReadyUser` | core/kernel/arch/x86_64/process.c:377-394 | selects, and moves the cursor past the selected slot |
| `ProcessManager64.ProcessManager.RunNextReady` | core/kernel/arch/x86_64/process.c:1136-1165 | selects a kernel process and runs it on its kernel stack page, whose new bytes are arbitrary, keeping the invariant |
| `ProcessManager64.ProcessManager.LoadPage` | core/kernel/arch/x86_64/process.c:848-860 | a page holds its part of the image and zeros after it |
| `ProcessManager64.ProcessManager.WireUserSlot` | core/kernel/arch/x86_64/process.c:832-862 | loading and wiring refine the function |
| `ProcessManager64.ProcessManager.FillUserSlot` | core/kernel/arch/x86_64/process.c:832-867 | and everything is given back should the check fail |
| `ProcessManager64.ProcessManager.CreateUserImage` | core/kernel/arch/x86_64/process.c:799-887 | keeps the invariant and refines creation |
| `ElfFormat64.ReadsHeader` | core/kernel/arch/x86_64/syscall_dispatch.h:350-388 | of a file encoded field by field the loader reads back the header that was encoded |
| `ElfFormat64.ReadsProgram` | core/kernel/arch/x86_64/syscall_dispatch.h:308-316 | and every program header, field for field |
| `ElfFormat64.AcceptedExactly` | core/kernel/arch/x86_64/syscall_dispatch.h:350-456 | an encoded file is accepted if and only if it is a 64-bit little-endian x86-64 executable of at most 64 KiB with one to eight program headers, its loadable segments are page-aligned inside 16 KiB from the code base and inside the file, and an executable one covers the entry |
| `ElfFormat64.EveryFileEncodes` | core/kernel/arch/x86_64/syscall_dispatch.h:308-388 | every file whose program headers lie inside it is the encoding of some header and program headers |
| `Elf64.CheckedIsOk` | core/kernel/arch/x86_64/syscall_dispatch.h:400-408 | the wrapping 64-bit segment test equals the plain range test |
| `Elf64.LastWins` | core/kernel/arch/x86_64/syscall_dispatch.h:423-430 | a staged byte is the file byte of the last segment, in header order, whose file part covers it |
| `Elf64.NoneProvides` | core/kernel/arch/x86_64/syscall_dispatch.h:423-430 | a byte no segment covers comes from no file byte |
| `Elf64.WritableMeans` | core/kernel/arch/x86_64/syscall_dispatch.h:410-421 | a page is marked writable if and only if some writable segment touches it |
| `ElfLoader64.TouchedPages` | core/kernel/arch/x86_64/syscall_dispatch.h:410-421 | the page loop's bounds are exactly the pages the segment overlaps |
| `ElfLoader64.ExecState.ClearPages` | core/kernel/arch/x86_64/syscall_dispatch.h:318-334 | zeroes the staging pages and forgets the marks |
| `ElfLoader64.ExecState.MarkPages` | core/kernel/arch/x86_64/syscall_dispatch.h:410-421 | adds exactly the pages of a writable segment |
| `ElfLoader64.ExecState.CopySegment` | core/kernel/arch/x86_64/syscall_dispatch.h:423-430 | overlays exactly the segment's file bytes |
| `ElfLoader64.ExecState.LoadSegment` | core/kernel/arch/x86_64/syscall_dispatch.h:390-441 | one program header: rejected exactly when it fails a check, else staged |
| `ElfLoader64.ExecState.LoadElf` | core/kernel/arch/x86_64/syscall_dispatch.h:350-456 | accepts exactly the accepted files, and then staging, writable pages, size, page count and entry are the file's |
| `Exec64.AcceptedImage` | core/kernel/arch/x86_64/syscall_dispatch.h:443-455 | every accepted file is an image creation accepts, with its entry inside the mapped pages |
| `Exec64.EntrySegment` | core/kernel/arch/x86_64/syscall_dispatch.h:432-436 | the entry of an accepted file lies in an executable segment |
| `Exec64.ImageVisible` | core/kernel/arch/x86_64/process.c:843-862 | through its own tables a created process reads the staged bytes, then zeros, writable exactly on the marked pages |
| `Exec64.StackVisible` | core/kernel/arch/x86_64/process.c:592-654 | the stack page reads zero and is writable |
| `Exec64.ExecCorrect` | core/kernel/arch/x86_64/syscall_dispatch.h:633-746 | end to end: at every mapped code address the new process reads the file byte of the last covering segment or zero, user-accessible, writable iff a writable segment touches the page; exec of an accepted file strays exactly when creation does, and otherwise fails only for a full table or too few pages |
| `Exec64.ExecRuns` | core/kernel/arch/x86_64/syscall_dispatch.h:633-746 | the same in terms of the encoded file: created from a file meeting the bounds, the process reads at each code address the byte of the last loadable program header that covers it, or zero, writable iff a writable one touches the page |
| `ExecCall64.Exec` | core/kernel/arch/x86_64/syscall_dispatch.h:633-746 | the service: a rejected file changes nothing; an accepted one is created from exactly its image |
| `PagingBuilder64.IdentityWalk` | core/kernel/arch/x86_64/paging_builder.c:444-450 | every address below 1 GiB outside 4-6 MiB maps to itself, supervisor only |
| `PagingBuilder64.DirectWalk` | core/kernel/arch/x86_64/paging_builder.c:452-458 | the direct map gives the first GiB of memory linearly, supervisor only |
| `PagingBuilder64.ScreenWalk` | core/kernel/arch/x86_64/paging_builder.c:460-487 | every byte of a framebuffer that ends by 1 GiB in its window appears at its place, supervisor only |
| `PagingBuilder64.AliasExactly` | core/kernel/arch/x86_64/paging_builder.c:489-512 | the kernel alias is the kernel byte for byte if and only if the kernel starts a whole number of 2 MiB pages above its load base |
| `PagingBuilder64.WindowsAgree` | core/kernel/arch/x86_64/paging_builder.c:444-526 | with the kernel at its load base, identity, direct map and alias agree on every byte of it |
| `PagingBuilder64.EntriesOkExactly` | core/kernel/arch/x86_64/paging_builder.c:539-559 | the kernel, direct-map and framebuffer entry checks hold if and only if the kernel has 1 byte to 2 MiB and the framebuffer spans 1 to 512 pages of 2 MiB, counted in 32 bits |
| `PagingBuilder64.ScreenFitsExactly` | core/kernel/arch/x86_64/paging_builder.c:460-487 | a framebuffer is mapped if and only if that page count is 1 to 512: short of the wrap, if it is not empty and ends by 1 GiB in its window |
| `PagingBuilder64.BuilderSound` | core/kernel/arch/x86_64/paging_builder.c:509-526 | the built tables are a sound source for address spaces |
| `PagingBuilder64.FirstProgramWalk` | core/kernel/arch/x86_64/paging_builder.c:514-526 | in the code slot and the second GiB user mode has exactly the first program's code pages, read-only, and its stack page |
| `PagingBuilder64.NothingElse` | core/kernel/arch/x86_64/paging_builder.c:352-526 | an address outside identity, direct map, framebuffer, kernel alias and the first program's pages is not mapped |
| `TableBuilder64.TakeAllSplits` | core/kernel/arch/x86_64/paging_builder.c:209-239 | the sixteen pages are all taken or, on failure, the free set is restored; it succeeds exactly with sixteen free pages |
| `Boot64.BootTakes` | core/kernel/arch/x86_64/heap.c:98-141 | boot gets its tables exactly with sixteen free pages, the early heap its 96 pages or none, and what they leave is free |
| `Boot64.Boots` | core/kernel/arch/x86_64/kernel.c:517-526 | from the boot memory map on: whenever its regions do not overlap or round over and the pages of the tables and the heap lie within reach, the process manager starts in a state satisfying its invariant, over tables that are as built |
| `Boot64.NeverStraysAfterBoot` | core/kernel/arch/x86_64/kernel.c:517-526 | after boot no run strays if and only if, below the pages the tables and the heap took and above the spare ones, every tracked page lies in the window |
| `Boot64.OneRegionClearExactly` | core/kernel/arch/x86_64/pmm.c:65-96 | for a map with one region that condition in addresses: the pages creations can get end by 1 GiB and pass 4-6 MiB on one side |
| `Boot64.SmallMapStrays` | core/kernel/arch/x86_64/pmm.c:65-96 | a 7 MiB region above the first MiB boots, and some run of creations then gets a page of the code slot |
| `Boot64.LargeMapClear` | core/kernel/arch/x86_64/pmm.c:65-96 | a 16 MiB region above the first MiB meets the conditions for booting and for never straying |
| `TableBuilder64.FillHuge` | core/kernel/arch/x86_64/paging_builder.c:448-458 | the loop fills exactly the words asked for |
| `TableBuilder64.FillKernel` | core/kernel/arch/x86_64/paging_builder.c:489-496 | the loop fills exactly the kernel's pages |
| `TableBuilder64.FillCode` | core/kernel/arch/x86_64/paging_builder.c:514-517 | the loop enters exactly the image's pages |
| `TableBuilder64.TableBuilder.TakePages` | core/kernel/arch/x86_64/paging_builder.c:209-239 | allocation with rollback refines the function |
| `TableBuilder64.TableBuilder.Build` | core/kernel/arch/x86_64/paging_builder.c:352-526 | all thirteen tables with exactly their words, or nothing |
| `RoundRobin.SelectsNearest` | core/kernel/core/scheduler.c:300-383 | a selection picks a ready slot no farther ahead than any ready slot |
| `RoundRobin.SelectedWithin` | core/kernel/core/scheduler.c:341-383 | a slot d places ahead that stays ready is selected within d + 1 selections |
| `RoundRobin.BoundedBypass` | core/kernel/core/scheduler.c:341-383 | a slot ready at N consecutive selections is selected among them |
| `TaskStacks32.TakenStack` | core/kernel/core/scheduler.c:666-701 | a stack taken from the heap is a new live block, and every other stack stays |
| `TaskStacks32.TakenValidates` | core/kernel/core/scheduler.c:678-681 | the kernel's assertion on a new stack's pointer always passes |
| `TaskStacks32.FreeSucceeds` | core/kernel/core/scheduler.c:703-726 | while the heap has at most 4096 blocks, freeing a held stack never fails the kernel assertion |
| `TaskStacks32.FreedSlot` | core/kernel/core/scheduler.c:703-726 | freeing one slot's stack keeps every other stack and the counters |
| `TaskRuns32.StepGood` | core/kernel/core/scheduler.c:902-1535 | every operation, with other users of the heap in between, keeps stacks, counters, ids and call record in order |
| `TaskRuns32.RunGood` | core/kernel/core/scheduler.c:902-1535 | over every run: stacks taken minus given back is the number of slots holding one; entries of a recurring body by run_pending are at least its interval after any earlier entry; a one-shot body is entered at most once per id |
| `TaskRuns32.StacksDisjoint` | core/kernel/core/scheduler.c:666-701 | live kernel stacks are pairwise disjoint ranges inside the heap |
| `TaskRuns32.InitialGood` | core/kernel/core/scheduler.c:836-900 | initialisation over any well-formed heap starts in order |
| `TaskRuns32.RunAsleep` | core/kernel/core/scheduler.c:230-256 | a sleep of at most 2^31 ticks is not ended before its time by any run without its own wake-up, unless a repair meets a wake tick of zero |
| `TaskRuns32.RepairWakesExactly` | core/kernel/core/scheduler.c:572-576 | a repair ends a sleep if and only if its wake tick is zero in 32 bits |
| `TaskRuns32.RepairWakesEarly` | core/kernel/core/scheduler.c:572-576 | from every state with an active task one call makes such a sleep, and a repair wakes it before its time |
| `TaskRuns32.ScanWakes` | core/kernel/core/scheduler.c:230-256 | any wake scan, by the timer or by run_pending, within 2^31 ticks after the wake time ends the sleep; run_pending may then run the task at once |
| `TaskCalls32.SleepNotEarlyExactly` | core/kernel/core/scheduler.c:230-256 | no wake scan ends a sleep early if and only if it lasts at most 2^31 ticks |
| `TaskCalls32.Entered` | core/kernel/core/scheduler.c:728-764 | entering a body keeps the intervals of recurring tasks and the single entry of one-shot ones |
| `TaskFairness32.QueueExact` | core/kernel/core/scheduler.c:300-339 | the ready queue lists exactly the ready slots, nearest to the cursor first, each once |
| `TaskFairness32.HeadIsSelection` | core/kernel/core/scheduler.c:341-383 | its head is the round-robin selection |
| `TaskFairness32.NoStarvation` | core/kernel/core/scheduler.c:341-383 | over any run with sixteen run_pending steps and anything in between, a slot ready at each of them is selected |
| `TaskDispatch32.QueuedExactly` | core/kernel/core/scheduler.c:258-339 | in every state in good order the queue holds exactly the active tasks that are one-shot or whose interval has passed on the unbounded clock and also modulo 2^32: so every one with interval <= clock - last run < 2^32, and none too early |
| `TaskDispatch32.PendingExactly` | core/kernel/core/scheduler.c:1504-1528 | run_pending wakes due sleepers and enters the selected body, on record as a pending call; a recurring task stays active with the time and count of the run, a one-shot is completed without its stack; the cursor moves past it |
| `TaskDispatch32.Dispatched` | core/kernel/core/scheduler.c:341-383 | over any run with sixteen run_pending steps and anything in between, a task whose time has come at each of them until it is run has a new call on record |
| `TaskDispatch32.RipeRuns` | core/kernel/core/scheduler.c:341-383 | a task whose time has come is run: over any run with sixteen run_pending steps that does not stop, sleep or yield it and, if it recurs, ends less than 2^32 ticks after its last run, a new call with its id is on record |
| `TaskEffects32.ReadyExactly` | core/kernel/core/scheduler.c:258-284 | ready in 32-bit ticks if and only if ready on the unbounded clock and, for a recurring task, the elapsed ticks modulo 2^32 reach the interval |
| `TaskEffects32.LateMissed` | core/kernel/core/scheduler.c:258-284 | a recurring task not run for exactly 2^32 ticks is not seen as ready |
| `TaskEffects32.CreateExactly` | core/kernel/core/scheduler.c:902-961 | creation succeeds if and only if there is a body, a recurring task has an interval, a slot is free and the heap can give a stack; the lowest free slot then holds the new task with exactly its arguments |
| `TaskEffects32.DisableExactly` | core/kernel/core/scheduler.c:1091-1113 | an active task ends disabled without a stack and one more stack counts as given back; a sleeping, ended or unknown one leaves the whole state alone |
| `TaskEffects32.SleepExactly` | core/kernel/core/scheduler.c:1162-1185 | an active task put to sleep for some ticks sleeps until that much later; nothing else changes |
| `TaskEffects32.WakeExactly` | core/kernel/core/scheduler.c:1231-1253 | a sleeping task is active again; any other is left alone |
| `TaskEffects32.YieldExactly` | core/kernel/core/scheduler.c:1299-1324 | an active task that yields counts as run now; nothing else changes |
| `TaskEffects32.RunNowExactly` | core/kernel/core/scheduler.c:1384-1401 | the body of an active task is entered and recorded; a one-shot is completed and its stack freed; any other task is left alone |
| `TaskEffects32.ClearExactly` | core/kernel/core/scheduler.c:1460-1493 | exactly the disabled and completed slots become blank, and the queue is emptied |
| `TaskFairness32.StaleExactly` | core/kernel/core/scheduler.c:439-511 | between two writings of the ready queue an entry becomes stale if and only if some creation fills its slot |
| `TaskFairness32.AuditExactly` | core/kernel/core/scheduler.c:439-511 | since the queue was last written the audit is clean if and only if no task sleeps until a tick that is zero in 32 bits and no creation filled a slot the queue names |
| `TaskRepair32.RepairExact` | core/kernel/core/scheduler.c:522-611 | from any table whose bases are distinct live heap pointers repair completes; the audit after it is clean if and only if no used slot had a stack top without a base; repairing again repairs and changes nothing |
| `TaskRepair32.RepairFromSound` | core/kernel/core/scheduler.c:522-611 | the scan repairs every slot, never fails the kernel assertion, and counts the slots it acted on |
| `TaskRepair32.AuditCleanExactly` | core/kernel/core/scheduler.c:439-511 | on any table the audit is clean if and only if every slot is in order, every queue entry names its slot's task and both task pointers are in the table |
| `TaskRepair32.RepairEffect` | core/kernel/core/scheduler.c:522-611 | repair keeps slots in order, disables going tasks that lack stack or body, and reports no repairs if and only if it changed no slot but unused ones without a stack and both task pointers were in the table |
| `Scheduler32.Scheduler.constructor` | core/kernel/core/scheduler.c:836-900 | starts in order over any well-formed heap |
| `Scheduler32.Scheduler.FindAvailableSlot` | core/kernel/core/scheduler.c:174-190 | the first reusable slot |
| `Scheduler32.Scheduler.FindTaskById` | core/kernel/core/scheduler.c:217-228 | the first used slot with the id |
| `Scheduler32.Scheduler.FreeKernelStack` | core/kernel/core/scheduler.c:703-726 | refines the function, reporting a failed kernel assertion |
| `Scheduler32.Scheduler.AllocateKernelStack` | core/kernel/core/scheduler.c:666-701 | refines the function, with the kernel's pointer assertion proved |
| `Scheduler32.Scheduler.CreateTask` | core/kernel/core/scheduler.c:902-961 | refines creation and keeps the scheduler in order |
| `Scheduler32.Scheduler.DisableTask` | core/kernel/core/scheduler.c:1091-1113 | refines the function and keeps the scheduler in order |
| `Scheduler32.Scheduler.SleepTask` | core/kernel/core/scheduler.c:1162-1185 | refines the function and keeps the scheduler in order |
| `Scheduler32.Scheduler.WakeTask` | core/kernel/core/scheduler.c:1231-1253 | refines the function and keeps the scheduler in order |
| `Scheduler32.Scheduler.YieldTask` | core/kernel/core/scheduler.c:1299-1324 | refines the function and keeps the scheduler in order |
| `Scheduler32.Scheduler.WakeSleepingTasks` | core/kernel/core/scheduler.c:230-256 | the scan wakes exactly the due sleepers |
| `Scheduler32.Scheduler.RunTrampoline` | core/kernel/core/scheduler.c:728-764 | refines the function: one entry of the body, then completed or active |
| `Scheduler32.Scheduler.RunTaskNow` | core/kernel/core/scheduler.c:1384-1401 | refines the function and keeps the scheduler in order |
| `Scheduler32.Scheduler.RebuildReadyQueue` | core/kernel/core/scheduler.c:300-339 | the loop builds the cyclic list of ready slots and never overflows |
| `Scheduler32.Scheduler.RunPendingTask` | core/kernel/core/scheduler.c:1504-1528 | refines the function and keeps the scheduler in order |
| `Scheduler32.Scheduler.OnTimerTick` | core/kernel/core/scheduler.c:1537-1552 | refines the function and keeps the scheduler in order |
| `Scheduler32.Scheduler.ClearInactiveTasks` | core/kernel/core/scheduler.c:1460-1493 | refines the function and keeps the scheduler in order |
| `Scheduler32.Scheduler.AuditTasks` | core/kernel/core/scheduler.c:439-511 | the loops count exactly the issues |
| `Scheduler32.Scheduler.RepairTask` | core/kernel/core/scheduler.c:528-589 | refines repair of one slot |
| `Scheduler32.Scheduler.RepairTasks` | core/kernel/core/scheduler.c:522-611 | refines repair and returns its count |
| `InputEvents64.PushKeeps` | core/kernel/arch/x86_64/idt.c:348-368 | queued events carry consecutive sequence numbers ending at the latest; drops plus queued is the number pushed |
| `InputEvents64.ReadIs` | core/kernel/arch/x86_64/idt.c:705-743 | a read delivers the next unread queued events in order without a gap among them and moves the cursor to the last |
| `InputEvents64.RunReceived` | core/kernel/arch/x86_64/idt.c:705-743 | over every run a reader receives strictly increasing numbers and lacks only dropped events |
| `InputEvents64.LosesExactly` | core/kernel/arch/x86_64/idt.c:723-726 | a read skips events if and only if more than 64 arrived since the cursor |
| `InputEvents64.RunComplete` | core/kernel/arch/x86_64/idt.c:705-743 | a reader that drains within every 64 arrivals receives each event exactly once |
| `InputEvents64.RunFaithful` | core/kernel/arch/x86_64/idt.c:348-368 | every event received carries the payload that arrived under its number |
| `InputEvents64.EventRing.constructor` | core/kernel/arch/x86_64/idt.c:320-341 | the ring starts empty with sequence number 1 |
| `InputEvents64.EventRing.PushEvent` | core/kernel/arch/x86_64/idt.c:348-368 | the ring-buffer push refines the function |
| `InputEvents64.EventRing.ReadFrom` | core/kernel/arch/x86_64/idt.c:705-743 | the copying loop refines the function |
| `InputEvents64.CharsInOrder` | core/kernel/arch/x86_64/idt.c:370-381 | keyboard characters come out first in, first out, and the buffer stays within 128 |
| `InputEvents64.KeyboardBuffer.PushChar` | core/kernel/arch/x86_64/idt.c:370-381 | refines the function: kept at the end, or refused when full |
| `InputEvents64.KeyboardBuffer.ReadChars` | core/kernel/arch/x86_64/idt.c:678-697 | refines the function: the oldest characters, removed |
| `ChildStatus64.RunAccounts` | core/kernel/arch/x86_64/process.c:946-1002 | on every run records = waits + drops + depth, and depth is at most 16 |
| `ChildStatus64.RunRecords` | core/kernel/arch/x86_64/process.c:946-971 | over every run the records made are the exits that name two different processes, in order, and none is evicted while they fit sixteen |
| `ChildStatus64.RunFromEmpty` | core/kernel/arch/x86_64/process.c:946-1002 | from the empty queue on, every record made is queued, waited for or evicted, and only once in all |
| `ChildStatus64.OmitsOnlyEvicted` | core/kernel/arch/x86_64/process.c:973-1002 | a parent's waits come in recording order; a record passed over was evicted |
| `ChildStatus64.OneFate` | core/kernel/arch/x86_64/process.c:946-1002 | the queued, waited-for and evicted records together list every record exactly once |
| `ChildStatus64.WaitsOldest` | core/kernel/arch/x86_64/process.c:973-1002 | a wait returns the oldest queued record of the parent, or none when there is none |
| `ChildStatus64.EvictOldest` | core/kernel/arch/x86_64/process.c:954-957 | evictions take the globally oldest queued record |
| `ChildStatus64.ChildStatusQueue.RemoveAt` | core/kernel/arch/x86_64/process.c:706-724 | the shifting loop removes exactly one record |
| `ChildStatus64.ChildStatusQueue.RecordChildExit` | core/kernel/arch/x86_64/process.c:946-971 | refines the function |
| `ChildStatus64.ChildStatusQueue.WaitChild` | core/kernel/arch/x86_64/process.c:973-1002 | refines the function |
| `PathNames64.TextIsPieces` | core/kernel/arch/x86_64/vfs.c:216-266 | the in-place text machine is a machine on the pieces between separators |
| `PathNames64.ResolvesExactly` | core/kernel/arch/x86_64/vfs.c:206-274 | the buffer holds the path its components resolve to if and only if no ".." left a component pending since the buffer was last empty |
| `PathNames64.LeavesSeparator` | core/kernel/arch/x86_64/vfs.c:240-249 | for all names a and b, "/a/b/.." becomes "/a/" while its components resolve to a |
| `PathNames64.IdempotentExactly` | core/kernel/arch/x86_64/vfs.c:206-274 | normalising again changes nothing under exactly the same condition |
| `PathNames64.ShallowClean` | core/kernel/arch/x86_64/vfs.c:240-249 | paths that never go up with two or more components pending satisfy the condition |
| `PathNames64.BackUpIn` | core/kernel/arch/x86_64/vfs.c:242-245 | the backing-up loop stops at the previous separator or the root |
| `PathNames64.Append` | core/kernel/arch/x86_64/vfs.c:251-265 | a separator when needed and the component, within the buffer |
| `PathNames64.NormalizePath` | core/kernel/arch/x86_64/vfs.c:206-274 | accepts exactly the absolute paths under 64 bytes, with every write inside the buffer, and leaves the normalised text and its terminator |

## Left out
- Inline assembly, context switches, CR3, MSR, GDT, TSS, IDT and PIC programming: hardware effects; TLB invalidation is not modelled, a walk always reads memory.
- Serial, VGA and framebuffer output, desktop services, shells, user programs, the smoke and report functions and self tests: input and output or fixed self-checks.
- The allocations of the x86_64 bump heap (the pages it takes at boot are modelled), the i386 ELF32 and flat loaders, the i386 process table and file descriptors: simpler relatives of what is modelled.
- Boot information parsing and `pmm_initialize`: their region lists and bounds are inputs.
- The embedded first program: the paging builder's own ELF loading is an input (its page contents and page count); the exec loader is modelled.
- The rest of the VFS (nodes, descriptors, read, write, stat) and of the system-call dispatcher: table lookups around the modelled parts. Its range check is modelled, but runs do not contain the stores system calls make through user addresses.
- ProcessRuns64.RunUndisturbed: like RunConserves it covers the kernel's own operations and user-mode stores, not the stores system calls make in supervisor mode at addresses a program names; `KernelWindow64.AcceptedEndsExactly` states exactly where those can end.
- Pmm32.FrameAllocator.constructor: the choice of the boot region is an input.
- Diagnostic counters, names, image paths and address-space ids of processes and kernel tasks, and the saved register contexts: they affect nothing that is stated.
- `scheduler_run_task_with_context_switch`, the preemption test and the scheduler lock: they run on another stack or interrupt a critical section; a body entered by the scheduler is assumed not to call back into it.
- Page tables of the i386 kernel beyond the boot directory are reached through the identity map; that frames lie below its limit is not modelled.
- ProcessRuns64.Isolated: concerns user-mode access only; supervisor mappings of the direct map reach every frame by design.
- ProcessManager64.ProcessManager.CreateUserImage: the writable pages are a set of page indices instead of a 32-bit bitmap, and the staging pages are one contiguous buffer, as the kernel lays them out.
- Scheduler32.Scheduler.CreateTask: ids are unbounded, so the reuse of ids after 2^32 creations is not modelled.
- Scheduler32.Scheduler.OnTimerTick: without the preemption test's dispatch.
- InputEvents64.RunReceived: assumes fewer than 2^32 events, as do the other laws over whole runs of the ring.
- TaskRuns32.RunAsleep: a repair that meets a sleeper whose wake tick is zero in 32 bits wakes it early, so such repairs are excluded by its condition; `TaskRuns32.RepairWakesExactly` states when.
- HeapGrowth.MapPagesGrew: page-table frames obtained during growth are counted as tables, not as data frames.
- ElfLoader64.ExecState.LoadElf: the staging pages are one buffer of 16384 bytes, so the source's per-page null checks and page-index check, which never act, are not repeated.
- PagingBuilder64.IdentityWalk: the identity window is the constant 1 GiB of the memory layout, which also makes the direct map at least that long, so both fill one table.
- PathNames64.NormalizePath: the source's two checks for a full buffer are not repeated, because the bounds proved there show that they never act.
