# A verified model of the kernel's hard parts

A Dafny model of eight components of an operating-system course repository, and proofs about
them. Each module follows one source file, or one aspect of it.

| modules | component |
|---|---|
| `PmmPages`, `PmmSlab`, `PmmSizes`, `PmmState`, `Pmm` | the physical memory manager: page allocator over the `Meta` table, slab pages whose free lists live in the free memory, `kalloc` and `kfree` as a refinement of "a set of disjoint live blocks" |
| `PmmLocks` | its spinlocks, under every interleaving of threads |
| `VmeMmu`, `VmeTree`, `VmeSpace`, `Vme` | x86 page tables (4-level paging, section 4.5 of the Intel SDM volume 3A, and 32-bit paging, section 4.3), as a refinement of a partial map from user pages to physical pages |
| `Int64` | 64-bit division and bit counts on 32-bit words |
| `Co` | the coroutine scheduler |
| `TtyQueue`, `TtyScreen` | the terminal: line discipline, and drawing only what is dirty |
| `Input` | the input queue, sequentially and under every interleaving |
| `Sd` | byte ranges on a disk of blocks |
| `Stdio` | `sitoa`, `vsprintf`, `atoi` |
| `Arith`, `Bits` | non-linear arithmetic in single steps; machine words and their bitwise operators on natural numbers |
| `Options`, `ChainKeys`, `Rings` | what several modules share: optional values, the names of slab chains, places in a ring |

Where the C code updates objects in place, the model is a class with those fields; every method
is proved against a specification function or predicate on values (`MemAfterAlloc`, `Picture`,
`MapStep`, `Put`, `Spliced`, ...), and the theorems are lemmas about those. Ghost fields hold the
abstract value (the set of live blocks, the tree of tables, the queue of lines). Protocols are
state machines over their steps.

The whole project is one Dafny 4.11 project: `dafny verify dfyconfig.toml`.

## Where the code and its purpose part

The model keeps what the code does. In these places a property that one would expect holds only
under a condition, and a member states which:

- `G_alloc` compares only the first page of a candidate with `n_meta`, so a block can run past
  the managed pages. From the state that `S_init` leaves, every live block stays inside in every
  run exactly if each request fits (`PmmState.FitsFor`, `PmmState.ContainmentExact`): the managed
  pages end on a multiple of it, or its last candidate starts in a page that `S_init` took (or in
  front of them), or that candidate reaches an entry of `Meta` behind `n_meta` that reads as
  allocated. Otherwise `PmmState.Overrun` gives the run: a client that goes on asking for that
  many pages. A heap that ends on a multiple of `MAX_ALLOC` is always safe
  (`PmmState.AlignedFits`).
- `__divdi3` and `__divmoddi4` meet section 6.5.5 of ISO C11 exactly if the operands are not
  INT64_MIN and -1 (`Int64.Divdi3`, `Int64.Divmoddi4`).
- `tty_init` does not clear the queue's cells, so a backspace on the empty new queue is refused
  exactly if the last cell happens to be zero (`TtyQueue.LineQueue.constructor`,
  `TtyQueue.LineQueue.PopBack`).
- `tty_render` forgets the marks of a terminal that is not shown, although `fb_write` draws none of
  its sprites. Its clean cells then say nothing about the screen, so the drawing of dirty cells only
  is right for the shown terminal alone (`TtyScreen.Screen.Render`, `TtyScreen.Screen.Write`); what
  makes the other one right is that switching marks every cell (`TtyScreen.Screen.SwitchTo`,
  `TtyScreen.Console.Switch`).
- `co_start` on a full pool returns a coroutine that has no slot (`Co.Scheduler.Start`).
- `push_event` panics exactly if the queue would reach `NEVENTS` (`Input.FullExactly`).
- `atoi` forms `x * 10 + c` before it takes `'0'` off, so it stays in the range of `int` exactly for
  n <= INT_MAX - 48; the last 48 numbers are read correctly because the sum wraps
  (`Stdio.InRangeExactly`, `Stdio.AtoiUndoesPrinting`).
- `nextPower_2(0)` wraps to 0 (`PmmSizes.NextPower2OfZero`); `kalloc` then asks for 16 bytes.

## Assumptions

- Integers: `size_t` and pointers have 64 bits, `int` has 32. `sizeof(meta_t)` is 24, the payload
  of a slab page starts at offset 28, list nodes take 16 bytes.
- Memory is a map from byte addresses to the 8-byte words stored there; words that overlap
  another one are told apart by address ranges. Memory is sequentially consistent.
- Memory manager: frees are of live blocks only. The heap has fewer than `META_SZ` pages and one
  for each of the initial slab pages; its last whole page ends on a multiple of `MAX_ALLOC`, or
  `Meta` has 255 entries more than pages, so that `try_alloc` stays inside `Meta`; it lies below
  2^64 (the constructor of `Pmm.Allocator` states all this). Page requests are the powers of two
  that `kalloc` makes. Entries of `Meta` past `n_meta` hold anything. Each CPU runs at most one
  allocating thread; any thread may free.
- Page tables: `pgalloc` returns fresh, page-aligned pages or NULL. Kernel entries carry no
  `PTE_U`. Addresses are words of the machine. Others use `pgalloc` and the rest of memory as they
  like between two calls, but leave the tables of this address space alone. For
  `VmeSpace.LeafPagesSpared` clients map pages that they own and own them while they are mapped.
- Coroutines: nobody waits for a coroutine that waits, directly or not, for the caller; a coroutine
  is waited for at most once and while it has a slot; `co_main` does not finish.
- Terminal: typed characters are not zero; characters are bytes. The grid has at least two cells.
  The two terminals have different display numbers.
- Disk: a block has a power of two of bytes; offsets and counts are non-negative, in range, and
  their sum is an `int`.
- Spinlocks and semaphores have their usual meaning.

## Model

| member | source | states |
|---|---|---|
| Int64.Clzsi2 | abstract-machine/klib/src/int64.c:640-669 | the branch-free count is the number of leading zeros of any non-zero 32-bit word |
| Int64.ClzHalve | abstract-machine/klib/src/int64.c:646-660 | one halving step keeps the answer: what is still to count plus what was counted |
| Int64.Ctzsi2 | abstract-machine/klib/src/int64.c:675-709 | the branch-free count is the number of trailing zeros of any non-zero 32-bit word |
| Int64.CtzHalve | abstract-machine/klib/src/int64.c:681-700 | one halving step keeps the answer and never loses the lowest one |
| Int64.TrailingZerosIsLowest | abstract-machine/klib/src/int64.c:673-674 | the reference count really is the index of the lowest one |
| Int64.Clzdi2 | abstract-machine/klib/src/int64.c:725-731 | choosing the word by masks counts the leading zeros of 64 bits |
| Int64.Ctzdi2 | abstract-machine/klib/src/int64.c:717-723 | choosing the word by masks counts the trailing zeros of 64 bits |
| Int64.Udivmoddi4 | abstract-machine/klib/src/int64.c:426-634 | a = q * b + r with 0 <= r < b for all 64-bit a and b != 0, in every special case and the loop |
| Int64.DivideByHighWord | abstract-machine/klib/src/int64.c:460-521 | the divisor with a zero low word: the power-of-two shortcut and the loop give quotient and remainder |
| Int64.DivideByLowWord | abstract-machine/klib/src/int64.c:524-572 | the divisor with a zero high word: all shift ranges give quotient and remainder |
| Int64.DivideByTwoWords | abstract-machine/klib/src/int64.c:573-603 | the divisor with two words: the early exit and all shift ranges give quotient and remainder |
| Int64.DivisionLoop | abstract-machine/klib/src/int64.c:610-633 | the shift-subtract loop divides, whenever it is entered with r < d |
| Int64.Turn | abstract-machine/klib/src/int64.c:612-629 | one turn on the four words: the shifted remainder stays in 64 bits, and d is taken off exactly if it fits |
| Int64.SignDecides | abstract-machine/klib/src/int64.c:624-628 | the sign of the wrapping d - r - 1 decides r >= d, for d >= 2^63 as well |
| Int64.SubtractIfFits | abstract-machine/klib/src/int64.c:624-628 | the sign as a mask subtracts without a branch and yields the quotient bit |
| Int64.LoopStep | abstract-machine/klib/src/int64.c:612-629 | one turn keeps the loop's meaning: digits found, remainder, digits to come |
| Int64.Divdi3 | abstract-machine/klib/src/int64.c:369-379 | truncation toward zero for all b != 0, except INT64_MIN / -1, which gives INT64_MIN |
| Int64.Moddi3 | abstract-machine/klib/src/int64.c:393-404 | the remainder of truncated division: sign of the dividend, smaller than the divisor, for all b != 0 |
| Int64.Divmoddi4 | abstract-machine/klib/src/int64.c:383-389 | a = q * b + rem although the product may wrap |
| Int64.TruncatedUnique | abstract-machine/klib/src/int64.c:366-404 | quotient and remainder are unique, so the contracts fix the results |
| PmmSizes.NextPower2IsLeast | kernel/src/pmm.c:26-34 | the bit smear gives the least power of two not below any request that fits 32 bits |
| PmmSizes.NextPower2OfZero | kernel/src/pmm.c:26-34 | zero wraps to zero |
| PmmSizes.GetSlabIndex | kernel/src/pmm.c:36-45 | the shift loop finds the index of a size class |
| PmmSizes.BlockSizeIsLeast | kernel/src/pmm.c:286-287 | kalloc's arithmetic yields the least power of two that is at least 16 and at least the request |
| PmmSizes.RequestClass | kernel/src/pmm.c:286-289 | exactly the requests of up to 4096 bytes go to the slabs, and to the smallest class that holds them |
| PmmSizes.PagesAreLeast | kernel/src/pmm.c:286-293 | a larger request gets the least power of two of pages that hold it |
| PmmSizes.SmallRequest | kernel/src/pmm.c:286-289 | every request that goes to the slabs has a size class that holds it |
| PmmSizes.LargeRequest | kernel/src/pmm.c:286-293 | every other request up to MAX_ALLOC becomes a power of two of bytes, below a page only for one page |
| PmmSizes.PagesRequest | kernel/src/pmm.c:290-293 | the pages asked for hold the request, are few enough, and are a multiple of its alignment |
| PmmSizes.BlockFits | kernel/src/pmm.c:283-295 | every block is at least as long as its request |
| PmmPages.RoundDownIsMask | abstract-machine/klib/include/klib-macros.h:5 | rounding with the mask of a power of two takes off the remainder, for every address |
| PmmPages.Pages.constructor | kernel/src/pmm.c:61-77 | all pages that fit the heap are described and free |
| PmmPages.Pages.TryAlloc | kernel/src/pmm.c:212-226 | true exactly for a run of free pages |
| PmmPages.Pages.SlowAlloc | kernel/src/pmm.c:228-243 | marks exactly the run, with a common end |
| PmmPages.Pages.GAlloc | kernel/src/pmm.c:245-259 | for a power of two of pages, the lowest size-aligned run of free pages becomes one new block; NULL only if there is none |
| PmmPages.Pages.GFree | kernel/src/pmm.c:261-281 | removes exactly the block at the pointer; the assertions hold |
| PmmPages.PictureAfterAlloc | kernel/src/pmm.c:228-243 | the table stays the page-by-page picture of the live blocks when one is added |
| PmmPages.PictureAfterFree | kernel/src/pmm.c:272-279 | ... and when one is removed |
| PmmPages.FreeRunIsNew | kernel/src/pmm.c:221-225 | pages read as free exactly if they belong to no live block and are not stale entries |
| PmmSlab.InitGivesSlab | kernel/src/pmm.c:84-97 | a new slab page is one free node from the first aligned slot behind the header to the end of the page |
| PmmSlab.SlabGeometry | kernel/src/pmm.c:92-96 | rounding the payload up and its length down meets the page end exactly |
| PmmSlab.AllocKeepsSlab | kernel/src/pmm.c:133-143 | splitting from the front keeps the list in memory address-ordered, acyclic, aligned, inside the page |
| PmmSlab.AllocTakesOne | kernel/src/pmm.c:133-148 | exactly one slot changes from free to live, the one handed out |
| PmmSlab.FreeKeepsSlab | kernel/src/pmm.c:185-208 | sorted insertion keeps all of that |
| PmmSlab.FreeReleasesOne | kernel/src/pmm.c:185-208 | exactly the freed slot changes from live to free |
| PmmSlab.AllocKeepsTiling | kernel/src/pmm.c:127-149 | free bytes and live slots fill the page exactly after an allocation |
| PmmSlab.FreeKeepsTiling | kernel/src/pmm.c:180-210 | ... and after a free |
| PmmSlab.AllocWrites | kernel/src/pmm.c:135-141 | an allocation writes no byte of a live slot |
| PmmSlab.FreeWrites | kernel/src/pmm.c:185-208 | a free writes nothing outside its page ... |
| PmmSlab.FreeSparesLive | kernel/src/pmm.c:185-208 | ... and no byte of a slot that stays live |
| PmmSlab.SlabOkStable | kernel/src/pmm.c:127-210 | whatever clients write into live slots leaves the free list intact |
| PmmState.LiveBlocksDisjoint | kernel/src/pmm.c:1-6 | any two live blocks, pages or slots, are disjoint |
| PmmState.LiveBlockInside | kernel/src/pmm.c:61-77 | a live block lies behind the Meta table and, if all requests fit, in front of the end of the managed pages |
| PmmState.LiveBlockClear | kernel/src/pmm.c:1-6 | a live block is clear of every slab header and of every free node |
| PmmState.SlabAllocInv | kernel/src/pmm.c:127-149 | slab_alloc keeps the allocator's invariant and the bytes of every live block |
| PmmState.SlabFreeInv | kernel/src/pmm.c:180-210 | S_free does |
| PmmState.PagesAllocInv | kernel/src/pmm.c:245-259 | G_alloc does |
| PmmState.PagesFreeInv | kernel/src/pmm.c:261-281 | G_free does |
| PmmState.AvailableFits | kernel/src/pmm.c:248-256 | if a request fits, no run of free pages that G_alloc may hand out for it goes past the managed pages |
| PmmState.NoRoomMeans | kernel/src/pmm.c:212-259 | in bytes: no candidate is free exactly if every address in the managed pages that is a multiple of the request's length meets a block or a stale page within that length |
| PmmState.FirstFitMeans | kernel/src/pmm.c:249-256 | in bytes: the block taken is at the lowest such address that meets none |
| PmmState.PageTakenInv | kernel/src/pmm.c:115 | a page that add_slab has taken and not yet linked keeps the invariant and every live byte |
| PmmState.SlabAddInv | kernel/src/pmm.c:120-124 | initialising and linking that page later, whatever others did meanwhile, does so too; no live block is added or moved |
| PmmState.SlabAddReads | kernel/src/pmm.c:120-122 | at that point the page extended has next NULL, as the code asserts, and the class size |
| PmmState.ClientWriteInv | kernel/src/pmm.c:1-6 | clients may write any word inside their live blocks |
| PmmState.RunSafe | kernel/src/pmm.c:127-310 | in every state of every run of allocator steps and client writes, add_slab in two steps included, live blocks are disjoint, clear of all bookkeeping and, if all requests fit, inside the managed pages |
| PmmState.RunKeepsBytes | kernel/src/pmm.c:127-310 | no allocator step of any run writes a byte of a block that stays live |
| PmmState.Overrun | kernel/src/pmm.c:245-259 | if the last candidate for a request is free and goes past the end, asking for that many pages again and again is a run that makes a block past the end live |
| PmmState.ContainmentExact | kernel/src/pmm.c:245-259 | from the state that S_init leaves, all live blocks stay inside the managed pages in all runs if and only if every request fits |
| PmmState.AlignedFits | kernel/src/pmm.c:248-249 | every request fits if the managed pages end on a multiple of MAX_ALLOC |
| Pmm.Allocator.constructor | kernel/src/pmm.c:61-109 | initialisation establishes the invariant with no live block; the managed pages start behind the Meta table and end within a page of the heap's end |
| Pmm.Allocator.StartAll | kernel/src/pmm.c:99-109 | the loops of S_init take the first pages, one for each CPU and class, and make each a chain |
| Pmm.Allocator.SlabInit | kernel/src/pmm.c:89-97 | the words written are those of the specification |
| Pmm.Allocator.SlabAlloc | kernel/src/pmm.c:127-149 | the first free slot is unlinked in memory; NULL exactly if the list is empty |
| Pmm.Allocator.InsertSorted | kernel/src/pmm.c:185-208 | the walk links the slot at its place in address order |
| Pmm.Allocator.FreeIsAvailable | kernel/src/pmm.c:212-226 | the entries of a candidate read as free exactly if it is available |
| Pmm.Allocator.TakeSlabPage | kernel/src/pmm.c:115 | the lowest free page is marked and belongs to no chain yet; NULL only if no page is free |
| Pmm.Allocator.LinkSlab | kernel/src/pmm.c:120-122 | the page is initialised and becomes the last slab of the chain, all live blocks keeping their bytes |
| Pmm.Allocator.SFree | kernel/src/pmm.c:180-210 | exactly the live slot is freed; all other live blocks keep their bytes |
| Pmm.Allocator.AddSlab | kernel/src/pmm.c:111-125 | the lowest free page becomes the last slab of the chain, empty and of its class; NULL exactly if no page is free |
| Pmm.Allocator.SearchChain | kernel/src/pmm.c:161-169 | a slot of the chain, or NULL exactly if the whole chain is full |
| Pmm.Allocator.SAlloc | kernel/src/pmm.c:151-177 | a new live, aligned slot of the CPU's chain; NULL exactly if the chain is full and no page is free |
| Pmm.Allocator.SmallBlock | kernel/src/pmm.c:288-289 | a request of up to 4096 bytes gets a slot of the smallest class that holds it, from that CPU's chain; NULL exactly if that chain is full and no page is free |
| Pmm.Allocator.LargeBlock | kernel/src/pmm.c:290-293 | a larger one gets the lowest aligned run of the pages it needs; NULL exactly if there is none |
| Pmm.Allocator.Kalloc | kernel/src/pmm.c:283-295 | NULL exactly if the request exceeds MAX_ALLOC or there is no room: for small requests a full chain of the smallest class that holds them and no free page, for large ones no aligned run of the least power of two of pages; otherwise a new live block of that class or of that many pages, aligned to the least power of two that holds the request, behind the Meta table and, if all requests fit, inside the managed pages; all other live blocks keep their bytes |
| Pmm.Allocator.LookUp | kernel/src/pmm.c:299-307 | the Meta entry of its page says which allocator a live block came from, and kfree's assertions hold |
| Pmm.Allocator.Kfree | kernel/src/pmm.c:297-310 | exactly that block is freed, by the allocator that made it |
| PmmLocks.StepKeepsInv | kernel/src/pmm.c:111-210 | every step of every thread keeps the lock invariant, whatever pages G_alloc's clients take or return in between |
| PmmLocks.ServeKeepsInv | kernel/src/pmm.c:283-310 | ... and so does every new request |
| PmmLocks.AssertionsHold | kernel/src/pmm.c:121-175 | slab->next is NULL when a page is linked, and a fresh slab page yields a block |
| PmmLocks.MutualExclusion | kernel/src/pmm.c:13-14 | each slab list is worked on by one thread at a time, and so is the Meta table |
| PmmLocks.LockOrder | kernel/src/pmm.c:111-125 | a thread holds one slab lock at most, none while it waits for one, and G_lock only as the last: locks are taken in the order slab, G_lock |
| PmmLocks.NoDeadlock | kernel/src/pmm.c:111-281 | unless all threads are idle, one can go on |
| PmmLocks.EnvDecides | kernel/src/pmm.c:111-281 | the conditions under which a step is defined keep back no thread that the locks let go on |
| PmmLocks.RunSafe | kernel/src/pmm.c:111-310 | in every state of every interleaving: the invariant, the assertions, mutual exclusion, the lock order on the locks held, and progress |
| PmmLocks.RunListsLocked | kernel/src/pmm.c:111-210 | in every interleaving a slab page changes only under its own lock, and a new one appears only under G_lock |
| PmmLocks.PageFrame | kernel/src/pmm.c:111-210 | what one step may change of a slab page, and of whom |
| PmmLocks.OnePlace | kernel/src/pmm.c:127-210 | a slot is not free, live and on its way back at once, and is returned by one thread only |
| PmmLocks.RunLosesNone | kernel/src/pmm.c:111-310 | in every state of every interleaving each slot is free, live or being returned, and each page is in its chain or about to be linked |
| VmeMmu.Mmu64Ok | abstract-machine/am/src/x86/qemu/vme.c:3-28 | the 64-bit configuration is consistent: index fields tile the address, areas are whole level-1 slots, user and kernel apart |
| VmeMmu.Mmu32Ok | abstract-machine/am/src/x86/qemu/vme.c:14-33 | ... and so is the 32-bit one, whose last area ends at address 0 |
| VmeMmu.IndexIs | abstract-machine/am/src/x86/qemu/vme.c:49-51 | mask and shift select the index field |
| VmeMmu.PathUnique | abstract-machine/am/src/x86/qemu/vme.c:7-20 | the indices of all levels identify a user page |
| VmeTree.WalkFindsUserEntry | abstract-machine/am/src/x86/qemu/vme.c:57-75 | the hardware's walk reaches the leaf entry with all rights, from any level |
| VmeTree.AddTable | abstract-machine/am/src/x86/qemu/vme.c:66-69 | a lazily added empty table keeps the tree and changes no translation |
| VmeTree.SetLeaf | abstract-machine/am/src/x86/qemu/vme.c:147-154 | writing a leaf entry changes the entry of exactly one page |
| VmeSpace.UserTranslation | abstract-machine/am/src/x86/qemu/vme.c:57-75 | the hardware translates a user address exactly as the partial map says |
| VmeSpace.KernelTranslation | abstract-machine/am/src/x86/qemu/vme.c:124-129 | kernel addresses are translated as by the kernel's own table |
| VmeSpace.KernelAddress | abstract-machine/am/src/x86/qemu/vme.c:22-33 | that holds for every address of every kernel area |
| VmeSpace.KernelUnmoved | abstract-machine/am/src/x86/qemu/vme.c:141-156 | no call of map changes how a kernel address is translated |
| VmeSpace.OtherSpaceUnmoved | abstract-machine/am/src/x86/qemu/vme.c:141-156 | no call of map changes another address space |
| VmeSpace.TakingIsOthers | abstract-machine/am/src/x86/qemu/vme.c:40-47 | a client that takes a page and fills it acts as others do |
| VmeSpace.GivingIsOthers | abstract-machine/am/src/x86/qemu/vme.c:77-87 | ... and so does giving pages back, unprotect of another space included |
| VmeSpace.MappingIsOthers | abstract-machine/am/src/x86/qemu/vme.c:141-156 | ... and so does a call of map on another space |
| VmeSpace.WriteIsMap | abstract-machine/am/src/x86/qemu/vme.c:147-154 | writing the entry maps or unmaps exactly the page asked for, with the rights asked for |
| VmeSpace.MapMeans | abstract-machine/am/src/x86/qemu/vme.c:141-156 | what the hardware finds after a call of map: for the page's addresses nothing after unmapping, else the page asked for, for user code, writable exactly if bit 1 of prot is set; for all others what it found before |
| VmeSpace.RunRefinesMap | abstract-machine/am/src/x86/qemu/vme.c:141-156 | any run of maps and unmaps, with any actions of others in between, implements the partial map; its tables are those of the start and the pages that its own calls took |
| VmeSpace.LastCallDecides | abstract-machine/am/src/x86/qemu/vme.c:141-156 | in the partial map the last call for a page decides |
| VmeSpace.NoCallNoMapping | abstract-machine/am/src/x86/qemu/vme.c:141-156 | ... and a page no call was made for is not mapped |
| VmeSpace.RunTranslates | abstract-machine/am/src/x86/qemu/vme.c:141-156 | after any run, others acting in between, the hardware translates a user address as the last call for its page says |
| VmeSpace.HeldPageSpared | abstract-machine/am/src/x86/qemu/vme.c:57-75 | a page that somebody else holds never becomes a table of this space |
| VmeSpace.LeafPagesSpared | abstract-machine/am/src/x86/qemu/vme.c:141-156 | in no such run is a mapped user page a table of this space |
| VmeSpace.QuietRunFrames | abstract-machine/am/src/x86/qemu/vme.c:141-156 | if nobody else acts, the rest of memory and the pages of pool and tables together stay |
| VmeSpace.FreshIsTree | abstract-machine/am/src/x86/qemu/vme.c:117-135 | the root that protect builds is a valid address space ... |
| VmeSpace.FreshMapsNothing | abstract-machine/am/src/x86/qemu/vme.c:117-135 | ... that maps no user address |
| VmeSpace.SlotEnd | abstract-machine/am/src/x86/qemu/vme.c:124-126 | the loop over a kernel area stops at its end and not before, also when the end wraps to 0 |
| Vme.Vm.PgAllocZ | abstract-machine/am/src/x86/qemu/vme.c:40-47 | a page of the pool, cleared; nothing changes if there is none |
| Vme.Vm.PtWalk | abstract-machine/am/src/x86/qemu/vme.c:57-75 | the entry for the address; tables are added from the pool, no translation changes, and nothing changes if all tables are there |
| Vme.Vm.Map | abstract-machine/am/src/x86/qemu/vme.c:141-156 | which panic happens when; otherwise exactly one page is mapped or unmapped |
| Vme.Vm.CopyArea | abstract-machine/am/src/x86/qemu/vme.c:123-129 | exactly the area's entries are taken over from the kernel table |
| Vme.Vm.Protect | abstract-machine/am/src/x86/qemu/vme.c:117-135 | an empty address space that shares the kernel's entries and costs one page |
| Vme.Vm.Teardown | abstract-machine/am/src/x86/qemu/vme.c:77-87 | frees the tables of the subtree, each exactly once, and no other page; ends because the level rises |
| Vme.Vm.Unprotect | abstract-machine/am/src/x86/qemu/vme.c:137-139 | frees exactly the tables of the address space, each once |
| Vme.UnprotectFreesOwn | abstract-machine/am/src/x86/qemu/vme.c:117-156 | after protect and any run with others acting in between, unprotect frees exactly the root and the pages that the calls of map took, each once, and not the kernel's table |
| Vme.UnprotectSparesHeld | abstract-machine/am/src/x86/qemu/vme.c:77-87 | ... no page that somebody else holds |
| Vme.UnprotectSparesLeaves | abstract-machine/am/src/x86/qemu/vme.c:77-87 | ... and no user page that is still mapped |
| Vme.UnprotectUndoesRun | abstract-machine/am/src/x86/qemu/vme.c:117-156 | if nobody else acts, unprotect restores memory and pool as they were before protect |
| Co.DistanceCounts | libco/co.c:112-118 | the distance of two slots is the number of steps of one slot round the pool |
| Co.SwitchToFirst | libco/co.c:112-153 | a switch goes to the first slot that can run, counting up from the current one modulo MAXCO |
| Co.Closer | libco/co.c:112-118 | the cyclic distance to a coroutine that can run falls at every switch that does not reach it, and it keeps its slot |
| Co.BoundedBypass | libco/co.c:112-153 | in every run, a coroutine that can run is itself resumed within MAXCO - 1 switches |
| Co.Scheduler.FindReady | libco/co.c:92-109 | following the waits from any live coroutine leads to one that can run |
| Co.Scheduler.FdNext | libco/co.c:112-118 | ends, k steps of one slot after id modulo MAXCO, at a slot that can run, and none passed on the way can |
| Co.Scheduler.Yield | libco/co.c:120-153 | control passes to that slot's coroutine; it was not dead or waiting, and nobody else changes |
| Co.Scheduler.Start | libco/co.c:74-90 | the first empty slot is taken; without one the coroutine has none |
| Co.Scheduler.Die | libco/co.c:138-143 | the current coroutine is dead and its waiter can run; nobody else changes |
| Co.Scheduler.Finish | libco/co.c:138-147 | a dead coroutine loses control and dead ones stay dead |
| Co.Scheduler.Wait | libco/co.c:92-98 | the caller is the recorded waiter and control passes on, or the target was dead and is released |
| Co.Scheduler.Resume | libco/co.c:96-109 | a coroutine that gets control back inside co_wait finds its target dead; the target's slot is freed |
| Co.Scheduler.RanksRise | libco/co.c:92-98 | waiting for somebody who does not wait for the caller keeps the waits acyclic |
| TtyQueue.EncodeFirst | kernel/src/dev/dev_tty.c:233-242 | the first separator in the queue ends the oldest line |
| TtyQueue.LineQueue.constructor | kernel/src/dev/dev_tty.c:217-221 | the new queue meets the invariant exactly if its last cell is zero |
| TtyQueue.LineQueue.Enqueue | kernel/src/dev/dev_tty.c:14-21 | one character is appended; it panics exactly when the ring would be full |
| TtyQueue.LineQueue.PopBack | kernel/src/dev/dev_tty.c:23-34 | removes a character exactly if the cell before rear is not zero |
| TtyQueue.LineQueue.LastCell | kernel/src/dev/dev_tty.c:25-28 | that cell is non-zero exactly if the line being typed is not empty |
| TtyQueue.LineQueue.Cook | kernel/src/dev/dev_tty.c:67-85 | newline finishes the line, backspace takes from the line being typed only, others append; when each is refused or panics |
| TtyQueue.LineQueue.Claim | kernel/src/dev/dev_tty.c:228 | the semaphore counts the unread lines that no reader has claimed |
| TtyQueue.LineQueue.Scan | kernel/src/dev/dev_tty.c:233-242 | ends behind the first zero and copies as many characters as count allows, or all |
| TtyQueue.LineQueue.Read | kernel/src/dev/dev_tty.c:226-245 | consumes exactly the oldest line and returns its first characters: count of them, or the whole line if count is at least its length |
| TtyScreen.LineFits | kernel/src/dev/dev_tty.c:46-49 | the cursor's line lies inside the grid |
| TtyScreen.Put | kernel/src/dev/dev_tty.c:135-167 | the cursor stays inside the grid after any character, wrapping and scrolling included |
| TtyScreen.BackspaceLaw | kernel/src/dev/dev_tty.c:55-60 | backspace clears the cell in front of the cursor, moves onto it and changes no other cell; at the start of the grid it does nothing |
| TtyScreen.PrintableLaw | kernel/src/dev/dev_tty.c:62-65 | a character goes under the cursor, which moves on by one; past the last cell everything moves up one row and the last row is blank |
| TtyScreen.BackspaceUndoes | kernel/src/dev/dev_tty.c:55-65 | a character put on a blank cell and a backspace give the text back |
| TtyScreen.ReturnLaw | kernel/src/dev/dev_tty.c:46-49 | return goes to the first column of the row and changes no cell |
| TtyScreen.NewlineLaw | kernel/src/dev/dev_tty.c:146-156 | newline goes to the first column of the next row, or moves everything up |
| TtyScreen.ScrollLaw | kernel/src/dev/dev_tty.c:36-44 | row y + 1 becomes row y, and the last row is blank |
| TtyScreen.PutAllJoins | kernel/src/dev/dev_tty.c:247-256 | two writes put down what one write of both does |
| TtyScreen.PlainText | kernel/src/dev/dev_tty.c:247-256 | text without control characters stands in the cells from the cursor on, as it is |
| TtyScreen.CellAlone | kernel/src/dev/dev_tty.c:98-105 | the two sprites of a cell show it and disturb no other cell |
| TtyScreen.Screen.constructor | kernel/src/dev/dev_tty.c:205-217 | a new terminal is blank, unmarked, with its cursor at the start |
| TtyScreen.Screen.ScrollUp | kernel/src/dev/dev_tty.c:36-44 | the lines move up and the last one is empty |
| TtyScreen.Screen.PutChar | kernel/src/dev/dev_tty.c:135-167 | the text changes as specified, and every cell left clean on the shown terminal still shows what it should |
| TtyScreen.Screen.MarkLine | kernel/src/dev/dev_tty.c:120-124 | exactly the line is marked |
| TtyScreen.Screen.Sprites | kernel/src/dev/dev_tty.c:90-108 | on the shown terminal the sprites of the dirty cells make every cell right; on a hidden one they draw nothing |
| TtyScreen.Screen.FbWrite | kernel/src/dev/dev_video.c:62-69 | exactly the sprites of the current display are drawn, in order |
| TtyScreen.Screen.Render | kernel/src/dev/dev_tty.c:90-114 | the shown terminal's screen is as after redrawing every cell and the cursor; a hidden one leaves the screen alone |
| TtyScreen.Screen.RedrawnTiles | kernel/src/dev/dev_tty.c:95-106 | a redrawn screen has, at row y and column x, the two tiles of the character there, or of the cursor |
| TtyScreen.Screen.Write | kernel/src/dev/dev_tty.c:247-256 | the same after any characters, and the text is the specified one on either |
| TtyScreen.Screen.Blink | kernel/src/dev/dev_tty.c:313-317 | turning the cursor of the shown terminal on or off leaves the screen right |
| TtyScreen.Screen.SwitchTo | kernel/src/dev/dev_tty.c:294-299 | switching to a terminal shows all of it, whatever was shown or marked before |
| TtyScreen.Console.Start | kernel/src/dev/dev_tty.c:268-274 | drawing all of the first terminal makes the screen show it |
| TtyScreen.Console.Write | kernel/src/dev/dev_tty.c:247-256 | a write to either of two terminals keeps the screen showing all of the current one, and leaves the other's text alone |
| TtyScreen.Console.Switch | kernel/src/dev/dev_tty.c:286-300 | ... and so does switching between them |
| TtyScreen.Console.Blink | kernel/src/dev/dev_tty.c:312-318 | ... and turning the cursor on or off |
| Input.InputQueue.Push | kernel/src/dev/dev_input.c:20-27 | the event is appended; it panics exactly at 128 |
| Input.InputQueue.Pop | kernel/src/dev/dev_input.c:29-38 | the oldest event is returned and removed |
| Input.StepKeepsInv | kernel/src/dev/dev_input.c:20-38 | every statement of every thread keeps: length = semaphore + pushers not yet signalled + poppers past sem_wait that have not moved front |
| Input.ClaimedNotEmpty | kernel/src/dev/dev_input.c:30-32 | a popper past sem_wait finds an event |
| Input.RunSafe | kernel/src/dev/dev_input.c:20-38 | no interleaving of any number of threads reaches "input queue empty" |
| Input.FullExactly | kernel/src/dev/dev_input.c:23-24 | "input queue full" is reached exactly when the length becomes 128 |
| Input.TakesInOrder | kernel/src/dev/dev_input.c:33-35 | the n-th to move front takes the n-th event pushed |
| Input.ReturnsItsEvent | kernel/src/dev/dev_input.c:35-37 | what a popper returns is the event it took, whatever others did meanwhile |
| Input.NoneLost | kernel/src/dev/dev_input.c:20-38 | when all threads rest, the semaphore counts all events left |
| Sd.ReadAfterWrite | kernel/src/dev/dev_sd.c:26-57 | reading what was written gives it back, and only the addressed bytes change |
| Sd.ConcatUpdate | kernel/src/dev/dev_sd.c:52 | writing one block changes the flat contents in that block's range only |
| Sd.ConcatBlock | kernel/src/dev/dev_sd.c:33 | a block is the range of the flat contents that starts at it |
| Sd.ConcatByte | kernel/src/dev/dev_sd.c:33 | byte sz * q + r of the flat contents is byte r of block q |
| Sd.Disk.RoundDownIs | kernel/src/dev/dev_sd.c:30 | the mask finds the start of the block that holds the offset |
| Sd.Disk.Read | kernel/src/dev/dev_sd.c:26-39 | the addressed range of the flat contents, for every offset and count in range |
| Sd.Disk.WriteChunk | kernel/src/dev/dev_sd.c:45-55 | a partly overwritten block keeps its other bytes |
| Sd.Disk.Write | kernel/src/dev/dev_sd.c:41-57 | exactly the addressed bytes change, to the data |
| Stdio.DigitsDenote | abstract-machine/klib/src/stdio.c:29-32 | the digits denote the number in base 2, 10 and 16, and none is superfluous |
| Stdio.DigitChars | abstract-machine/klib/src/stdio.c:31 | digit d is the d-th of 0 to 9 and a to f |
| Stdio.PutDigits | abstract-machine/klib/src/stdio.c:27-32 | the loop writes them in reverse, and 32 places are enough |
| Stdio.Sitoa | abstract-machine/klib/src/stdio.c:17-46 | fill up to the width, the sign, the digits |
| Stdio.FieldLength | abstract-machine/klib/src/stdio.c:33-45 | max(width, digits) characters, one more for a sign, whose digits denote the number |
| Stdio.Vsprintf | abstract-machine/klib/src/stdio.c:49-129 | every format of text, %%, and c, d, u, p, x, b, s with width, 0 and + prints its specification, arguments in order; what that is, the following rows say |
| Stdio.PlainPrintsItself | abstract-machine/klib/src/stdio.c:53-59 | text without % prints itself |
| Stdio.PercentPrintsOne | abstract-machine/klib/src/stdio.c:63-65 | %% prints one % |
| Stdio.FormatsJoin | abstract-machine/klib/src/stdio.c:53-125 | two formats in one, the first taking exactly its arguments, print what they print one after the other |
| Stdio.SpecMeans | abstract-machine/klib/src/stdio.c:107-119 | digits and plus signs in front of the letter, in any order: the digits are the width, a leading 0 asks for zeros, a plus for a sign |
| Stdio.StringPrints | abstract-machine/klib/src/stdio.c:89-95 | %s prints the string, and nothing for NULL |
| Stdio.CharPrints | abstract-machine/klib/src/stdio.c:66-68 | %c prints the low byte of its argument |
| Stdio.NumberPrints | abstract-machine/klib/src/stdio.c:69-88 | d, u, p, x, b print fill, sign and digits; the digits denote the magnitude for d, else the unsigned word, in base 10, 10, 16, 16, 2; fill and digits take the width, or 12 places of zeros for p; the sign is a minus for a negative d, else a plus if asked for |
| Stdio.UnknownStops | abstract-machine/klib/src/stdio.c:120-122 | any other letter hits the assertion |
| Stdio.CutOffStops | abstract-machine/klib/src/stdio.c:120-122 | ... and so does a format that ends inside a conversion |
| Stdio.ReadDirective | abstract-machine/klib/src/stdio.c:60-119 | flags and width are those in front of the letter |
| Stdio.Atoi | abstract-machine/klib/src/stdlib.c:25-33 | the number that the text starts with after spaces, as a wrapping int |
| Stdio.ParsedMeans | abstract-machine/klib/src/stdlib.c:25-33 | spaces, digits and anything behind them: the number is that of the digits, 0 without any |
| Stdio.ParsedField | abstract-machine/klib/src/stdlib.c:25-33 | parsing undoes printing without a sign, for every width and either fill |
| Stdio.AtoiUndoesPrinting | abstract-machine/klib/src/stdio.c:69-76 | for every n from 0 to INT_MAX, every width and either fill, atoi of the output of %d is n |
| Stdio.InRangeExactly | abstract-machine/klib/src/stdlib.c:29 | no intermediate sum leaves the range of int exactly for n <= INT_MAX - 48 |

## Left out

- Vme.Vm.PtWalk: models the calls with `PTE_W | PTE_U` from `map`; level 0, whose table is the single
  word `as->ptr`, is written out before the loop, and the branch that allocates a root there belongs
  to `vme_init`.
- Vme.Vm.Teardown: models levels 1 and up; level 0 is `Vme.Vm.Unprotect`.
- Stdio.Vsprintf: stops as the code's assertion does also for an argument that is missing or of the
  wrong kind, which is undefined in C. The output is a sequence, since the C code does not bound it.
- PmmLocks.RunSafe: abstracts a slab page to the set of its free slots and the Meta table to a number
  of free pages; the lists and the table themselves are the subject of `PmmState`, whose runs
  interleave whole critical sections, with `add_slab` in two. Statements inside one critical section
  are not interleaved with those of another lock's.
- TtyScreen.Screen.Write: `tty_write` holds its lock for the characters and again for drawing; the
  model does both in one call and keeps its invariant at the point in between. Marks that the
  terminal daemon sets outside the lock, and the change of display after them, are taken as atomic: a
  write of another process to the terminal in between is not modelled. The `metadata` of a character, which
  stays zero, the sprites' `z`, which `fb_write` ignores, and the welcome text are left out.
- Co.Scheduler.Start: leaves out names, functions, arguments, stack switching, canaries and the
  contents of `jmp_buf`.
- `vme_init` and `ucontext`: the kernel's own table is given, with the properties listed above; the
  context is a record of constants.
- `kmt`, which is a stub in the repository: locks and semaphores are steps that are enabled when
  they can succeed.
- The keyboard map and modifier keys of the input device; `Input` starts at `push_event`.
- Disk transfers, framebuffer hardware, interrupt controllers and start-up code: hardware, entering
  as single steps.
- `klib` string functions, `malloc` and `rand`; `__udivdi3` and `__umoddi3`, which only call
  `__udivmoddi4`; applications and tools: easy members, or no logic of their own.
