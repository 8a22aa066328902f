# Verified model of a small AMD64 microkernel

The kernel boots on AMD64, remaps physical memory through four-level page tables, builds tasks with
their own kernel stacks, and switches between them. This project models the parts whose correctness
everything else rests on, and proves what they promise:

* **Page tables** (`PageTable`, `PageRights`, `MapState`, `PageRanges`, `MapRequests`, `MappedRights`, `Mapper`,
  `PageAccess`, `Boot`): the mapper `mm_map_pages` with its nested loops and 64-bit wrap-around, the software
  lookup, the frame accessors, the access that mapped pages give, and the remapping of memory at boot. Memory is an array of frames of 512 entries, changed in
  place. The abstract view is the translation of virtual page numbers, following section 5.3.3 of the
  AMD64 Architecture Programmer's Manual, Volume 2. A ghost map labels every table frame with its level and
  the address prefix it covers, so that no table can be reached on two paths.
* **Task creation** (`Bits`, `KernelStack`, `Tasks`): the bitmap allocator for stack slots, and
  `create_new_task` over the mapper, with an invariant over all tasks that exist.
* **Context switches** (`Machine`, `ContextSwitch`, `TaskSwitch`): the assembly code, executed
  instruction by instruction on sixteen registers, word-addressed memory and an opaque FX image; the frame
  that is fabricated for a new thread; and runs of any number of tasks that compute, create threads and
  switch.
* **Physical pages** (`Lists`, `E820`, `PageArray`): intrusive circular lists refined to sequences, the
  single pass over the E820 map (section 15.1 of ACPI 6.0), zones, per-CPU caches and the page allocator.
* **Two self-contained algorithms**: allocation in the bitmap buddy allocator (`Buddy`) and the formatter
  behind the kernel's printf (`NumberPrinting`, `Emission`, `Formatter`, `Directives`, `Conversions`,
  `Restarts`): what numbers look like, how they are written when there is little room, the loop over the format,
  directives as text, what each conversion prints, and the formats on which the loop goes wrong.

`Words` holds the machine words and constants they share.

C functions that update state are methods on classes whose contracts tie the new state to the old one;
what is promised over runs is proved as lemmas about the functions that specify those methods. Classes:
`Mapper.PageMemory`, `PageAccess.FrameAccessor`, `KernelStacks.StackAllocator`, `Tasks.TaskSystem`,
`TaskSwitch.TaskMachine`, `Lists.ListArena`, `PageArray.PhysicalMemory`, `Buddy.BuddyMap`.

To verify: `dafny verify dfyconfig.toml`.

## Where the code differs from what one would expect

The model does what the code does. These are the places where that is surprising, with the lemmas or the
postconditions that say when the code meets the expectation.

* A table can only be used if its frame number is below 2^19 (`PageTable.TableFrameExact`), and a request
  is carried out page for page only if it fits one 512 GB slot and stays out of the last gigabyte
  (`MapRequests.PlannedExact`). `Astray` is the model's name for stepping past the last entry of a table.
* A page that is not mapped as a kernel page gets the user bit in its entry, but the tables above it are always made
  for the kernel only, so no page is ever reached from user mode (`MappedRights.MappedForKernel`).
* When no stack slot is left, `create_new_task` returns 1, not a negative code
  (`Tasks.TaskSystem.AllocTask`).
* The test for too little memory subtracts the wrong way round: it accepts every amount up to 24 MB other than
  none (`E820.AcceptsExactly`).
* The pass over the E820 map gets stuck at an entry, other than the first, whose two rounded-down ends lie in
  the same page, and it skips a first entry that does not start at 0. On the memory that the kernel manages it
  agrees with the map exactly if no such entry comes before the one at 1 MB (`E820.PassAgreesExactly`);
  otherwise, on a map that the boot code accepts, all memory from 1 MB on can end up reserved
  (`E820.StuckExample`, `PageArray.StuckReserves`).
* The per-CPU caches get half the pages intended and count them double, so that the page allocator
  eventually hands out the head of its own list (`PageArray.BreaksExactly`).
* Below 32 blocks the initialisation of the buddy allocator does not clear its bitmap of free nodes; the result
  is a partition exactly if the memory had no other node's bit set (`Buddy.BuddyMap.constructor`).
* The formatter prints negative decimals as large positive numbers (`NumberPrinting.SignedExactly`). A 0
  behind the first digit of a field width makes it fill all that is left of the buffer with percent signs: it
  does so exactly if the cursor comes, with room left, to a `%` followed by flags that do not refuse each other,
  one or more digits from 1 to 9, and a 0 (`Restarts.JamExactly`).
* Zeros that pad a number come before its sign or prefix (`Conversions.SpelledAs`), `h` and `hh` truncate nothing
  (`Conversions.NumberOf`), and a precision does not shorten a string (`Conversions.StringPrinted`). A number for which
  there is too little room loses its most significant digits (`Conversions.NumberCut`).

## Model

| member | source | states |
|---|---|---|
| PageTable.TableFrameExact | eza/amd64/mm/pt.c:145-145 | A table is found again through the entry that points to it exactly if its frame number is below 2^19, because the shift is 32-bit signed arithmetic. |
| PageTable.FrameIndexRoundTrip | eza/amd64/mm/pt.c:179-180 | Every 32-bit frame number survives storing it in a page-table entry and reading it back as the lookup does. |
| PageTable.TablesDistinct | eza/amd64/mm/pt.c:90-141 | In a tree of tables two different paths from the root never reach the same table. |
| PageTable.PteWrite | eza/amd64/mm/pt.c:147-181 | Writing one page-table entry keeps the tree, keeps all tables, and changes the translation of exactly that page. |
| PageTable.Link | eza/amd64/mm/pt.c:93-111 | Hanging a zeroed frame below an absent entry keeps the tree, adds exactly that table and changes no translation. |
| PageTable.FreshWriteTranslates | eza/amd64/mm/mm.c:133-136 | Zeroing a frame that is not a table changes no table and no translation. |
| PageRights.LinkLinks | eza/amd64/mm/pt.c:90-141 | Hanging a table below an absent entry makes that entry writable, for the kernel only and cached, and changes no other entry on any path. |
| Mapper.PageMemory.constructor | eza/amd64/mm/mm.c:45-49 | Memory with a zeroed root table translates nothing, and no table is reached but for the kernel. |
| Mapper.PageMemory.AllocPage | mm/pageaccs.c:33-36 | The allocator as the mapper sees it: the next free frame, zeroed on request, or NULL when the pool is empty; the tree of tables is kept. |
| Mapper.PageMemory.PopulateEntry | eza/amd64/mm/pt.c:259-283 | Fills an absent entry with a fresh zeroed table and changes no translation, or fails and changes nothing, exactly if no frame is left. |
| Mapper.PageMemory.MapPde2Range | eza/amd64/mm/pt.c:143-186 | Maps the pages of one page table to the next frames of the accessor, consuming as many, and nothing else changes. |
| Mapper.PageMemory.MapPdp3Range | eza/amd64/mm/pt.c:188-223 | Maps a part of one gigabyte: success consumes one frame a page and creates exactly the missing page tables; failure leaves a prefix that ends at a 2 MB boundary. |
| Mapper.PageMemory.MapPml4Range | eza/amd64/mm/pt.c:226-257 | The same for a part of one 512 GB slot; where the clamp wraps in the last gigabyte, the loop leaves its table after one page. |
| Mapper.PageMemory.MmMapPages | eza/amd64/mm/pt.c:285-337 | Rejects exactly the bad arguments and then changes nothing; otherwise works through the planned pages, consumes one frame for each mapped page, and creates exactly the missing tables or runs out of frames. |
| Mapper.PageMemory.PinVirtualAddress | eza/amd64/mm/pt.c:339-369 | The software walk returns the frame of the address's translation, or the invalid index. |
| MapRequests.PlannedExact | eza/amd64/mm/pt.c:303-334 | For accepted arguments the walk visits exactly the requested pages, without straying, if and only if the request fits: inside one 512 GB slot, not into the last gigabyte, and page-aligned unless it ends at the slot's end. |
| MapRequests.MapOutcome | eza/amd64/mm/pt.c:285-369 | On a request that fits, looking up page k gives the k-th delivered frame, every address on another page translates as before, and -ENOMEM means a mapped prefix that is empty or ends at a 2 MB boundary. |
| MapRequests.LookupMapped | eza/amd64/mm/pt.c:339-369 | After pages were mapped, the lookup of any address is the new frame on those pages and the old result elsewhere. |
| MapRequests.MemorySuffices | eza/amd64/mm/pt.c:201-205 | A call runs out of memory exactly if the range needs more tables than frames are left; a successful one uses exactly the needed number. |
| MapRequests.RemapIsFree | eza/amd64/mm/pt.c:310-315 | After a successful call the same range needs no table, so mapping it again allocates none. |
| MapRequests.NeededBound | eza/amd64/mm/pt.c:237-241 | A range inside one slot needs at most one table for the slot, one for each gigabyte and one for each 2 MB it touches. |
| MappedRights.MapRights | eza/amd64/mm/pt.c:90-181 | On a request that fits, each mapped page's entry is present, writable and global, for the user exactly without bit 0 of the flags, uncached exactly with bit 1, and holds the delivered frame; tables made by the call are reached through writable entries for the kernel only; all other tables and pages keep their access. |
| MappedRights.KernelLinksKept | eza/amd64/mm/pt.c:90-141 | No call of the mapper makes a table that is reachable for the user, read-only or uncached. |
| MappedRights.MappedForKernel | eza/amd64/mm/pt.c:143-181 | Over all four levels, a mapped page can be written by the kernel and is never reached from user mode, whatever bit 0 says; it is cached exactly without bit 1. |
| MappedRights.NoUserPages | eza/amd64/mm/pt.c:90-141 | In memory whose tables the mapper made, no page whatever is reached from user mode. |
| PageRanges.IndexBits | eza/amd64/mm/pt.c:84-88 | The shifts and masks that pick table indices from an address are the digits of its page number. |
| MapState.PopulateEffect | eza/amd64/mm/pt.c:116-141 | Populating an entry keeps the pool and the tree sound: the new table is not reachable on any other path. |
| PageRanges.PdpPartStrays | eza/amd64/mm/pt.c:243-255 | At an address in the last gigabyte the clamp wraps to 0, one page is mapped, and the next entry would be number 512. |
| PageAccess.FrameAccessor.List | mm/pageaccs.c:98-112 | A list context stands at the first node of a circular list and will deliver its nodes. |
| PageAccess.FrameAccessor.NextFrame | mm/pageaccs.c:55-59 | Delivers the frame at the cursor's position of the stream and advances by one, for both kinds of accessor; the linear one counts modulo 2^32. |
| PageAccess.FrameAccessor.Reset | mm/pageaccs.c:98-104 | Rewinds the stream to its first frame. |
| PageAccess.FrameAccessor.ListSlice | mm/pageaccs.c:83-96 | A list accessor delivers the nodes of the circular list in order. |
| Boot.VerifyMapping | eza/amd64/mm/mm.c:51-78 | Reports success exactly if every page of the zone translates to its expected frame. |
| Boot.ArchRemapMemory | eza/amd64/mm/mm.c:80-122 | Which of its three ends it has, by the arguments and the free frames alone: both maps verified exactly if the DMA zone has at least two pages, memory is at most one gigabyte and the frames suffice; past the end of a table exactly if memory is between one and two gigabytes and the frames suffice up to there; otherwise a panic. |
| Boot.DmaMapRemains | eza/amd64/mm/mm.c:111-121 | Once the second call has run to its end, both maps verify: the identity map of the DMA zone as before, and the map of all memory at KERNEL_BASE. |
| Boot.BootTablesBound | eza/amd64/mm/mm.c:98-115 | 524 free frames are enough for the tables of both maps. |
| Bits.FindFirstBitMem64 | include/eza/amd64/bits.h:53-71 | Returns the lowest set bit of the bitmap, or the invalid index exactly if none is set. |
| Bits.ResetBitMem64 | include/eza/amd64/bits.h:73-83 | Clears the named bit and no other. |
| Bits.LowestBit | include/eza/amd64/bits.h:42-51 | `bsf` on a word that is not zero: a set bit below which no bit is set. |
| KernelStacks.MaskFindsSlot | include/eza/amd64/scheduler.h:34-42 | Masking a stack pointer gives the base of slot i exactly if it points into slot i; this holds on the whole of stack i, whose low end lies above the base page. |
| KernelStacks.SlotsDisjoint | include/eza/kstack.h:11-15 | Slots of different stacks have no address in common. |
| KernelStacks.StackAllocator.constructor | eza/generic_api/kstack.c:19-40 | Initially every id is free and every bit of the bitmap is set. |
| KernelStacks.StackAllocator.AllocateKernelStack | eza/generic_api/kstack.c:61-94 | Hands out the least free id with its stack addresses and keeps the cleared bits equal to the ids handed out and the counter exact; fails with -ENOENT exactly if none is free, leaving the caller's low address as it was. |
| Tasks.TaskSystem.CreateNewTask | eza/generic_api/task.c:105-191 | Succeeds exactly if the directory is shared, a stack is free and the frames suffice for the structure, four stack pages and the missing tables; keeps all tasks' pages mapped, writable and cached, to their own distinct frames; a failure creates no task, disturbs none, and has the code of its first obstacle: -12 without a page for the structure, 1 without a stack, -22 without the shared directory, -12 without frames for the rest. |
| Tasks.TaskSystem.AllocTask | eza/generic_api/task.c:115-128 | The structure's page and the stack slot; the failure code is 1 when no stack is left, since the result of the comparison is returned. |
| Tasks.TaskSystem.AllocStackPages | eza/generic_api/task.c:56-77 | Four pages in order on a circular list that starts at the first, or NULL exactly if fewer than four are left. |
| Tasks.TaskSystem.MapStack | eza/generic_api/task.c:136-154 | Maps the four stack pages in the task's slot and touches no other slot; succeeds exactly if the frames suffice. |
| Tasks.TaskSystem.MapStruct | eza/generic_api/task.c:156-165 | Maps the structure's page at the slot's base; this needs no new table and cannot fail. |
| Tasks.TasksUndisturbed | eza/generic_api/task.c:105-191 | Work confined to an unused slot and to free frames keeps every live task's stack and structure mapped to its own frames. |
| Tasks.TaskJoins | eza/generic_api/task.c:167-175 | A task mapped in a new slot to frames of its own joins the live tasks, and the whole-system invariant holds for all of them. |
| Tasks.CurrentTaskFound | include/eza/amd64/scheduler.h:34-42 | For every stack pointer of a live task, the masked address translates to the page of that task's own structure, which can be written. |
| Tasks.StackRights | eza/generic_api/task.c:136-154 | Every address of a live task's stack can be written, is cached, is not reached from user mode, and lies in a frame of that task. |
| Machine.ImageRoundTrip | include/eza/amd64/context.h:81-94 | What `fxsave` stores, `fxrstor` loads, and nothing outside the 512 bytes changes. |
| Machine.PushesEffect | include/eza/amd64/context.h:42-56 | Pushing a list of registers stores each in its place below the stack pointer and changes nothing else. |
| Machine.PopsEffect | include/eza/amd64/context.h:58-72 | Popping a list of distinct registers loads each from its place and changes no memory. |
| ContextSwitch.SaveAllEffect | include/eza/amd64/context.h:97-100 | From an 8-aligned stack pointer SAVE_ALL leaves, in at most 1136 bytes, a frame that holds fourteen registers and the FX image, and changes nothing above or below. |
| ContextSwitch.RestoreAllEffect | include/eza/amd64/context.h:103-105 | From the bottom of a saved frame RESTORE_ALL brings back the registers and the FX image and ends at the frame's top. |
| ContextSwitch.SaveThenRestore | include/eza/amd64/context.h:97-105 | SAVE_ALL followed by RESTORE_ALL changes no register and no FX state. |
| ContextSwitch.HwActivateEffect | eza/amd64/sched/context.S:57-73 | Suspends the caller with a frame of at most 1152 bytes below its return address, stores where it is, loads the new cr3, and continues at the top word of the new stack. |
| ContextSwitch.ResumeEffect | eza/amd64/sched/context.S:75-79 | Returning into the frame of a suspended task gives it back its registers, FX image, return address and interrupts. |
| ContextSwitch.WakeEffect | eza/amd64/sched/context.S:75-79 | `__return_from_sleep` restores rax too and returns to the caller of the switch. |
| ContextSwitch.ForkEffect | eza/amd64/asm.S:104-106 | `child_fork_path` restores the faked registers and enters the task through `iretq`. |
| ContextSwitch.SuspendedAgree | eza/amd64/sched/context.S:57-79 | A suspended task's frame is intact as long as the memory from its stored stack pointer to its top is. |
| TaskSwitch.FrameIsSuspended | eza/amd64/sched/task.c:168-225 | For every page-aligned stack top the fabricated frame can be resumed from; it takes 1040 bytes, and its FX area is 512-aligned and below the register block. |
| TaskSwitch.OnlyInterruptFlag | eza/amd64/sched/task.c:151-225 | The flags of a new task are those of its creator with bit 9 set and no other bit changed. |
| TaskSwitch.TaskMachine.ArchSetupTaskContext | eza/amd64/sched/task.c:168-225 | Afterwards the task is suspended 1040 bytes below its stack top with zeroed arguments, its saved context holds the page directory and that stack pointer, and memory outside the frame and these two words is unchanged. |
| TaskSwitch.TaskMachine.KernelThread | eza/amd64/sched/task.c:151-166 | Adds a suspended task with its function and argument; the invariant of the system is kept. |
| TaskSwitch.TaskMachine.ArchActivateTask | include/eza/amd64/scheduler.h:56-64 | Finds the running task by its stack pointer, suspends it and resumes the chosen one; the invariant of the system is kept. |
| TaskSwitch.ActivateEffect | include/eza/amd64/scheduler.h:56-64 | A switch suspends the caller at its call, continues the chosen task from its own snapshot with its own cr3, and leaves every other task's stack and context untouched. |
| TaskSwitch.CreateEffect | eza/amd64/sched/task.c:151-225 | A new thread is parked on its own stack, and no other task is touched. |
| TaskSwitch.NextKeepsInv | eza/amd64/sched/context.S:57-79 | Computing, creating a thread and switching each keep every suspended task's frame intact inside its own stack. |
| TaskSwitch.RunKeepsInv | eza/amd64/sched/context.S:57-79 | So does every run of such events. |
| TaskSwitch.SleeperUndisturbed | eza/amd64/sched/context.S:57-79 | In any run that does not switch to a suspended task, its snapshot, its stack and its saved context stay as they were. |
| TaskSwitch.TaskResumes | eza/amd64/sched/context.S:57-79 | A task that switches away and is switched to after any run of the others returns from its call with its stack pointer, its general registers other than the three arguments, its FX image and everything on its stack. |
| TaskSwitch.ThreadStarts | eza/amd64/sched/task.c:151-225 | A new thread, when first switched to after any run, enters the helper with rdi the function, rsi its argument, rsp the stack top, kernel segments and interrupts enabled. |
| TaskSwitch.RunningStack | include/eza/amd64/scheduler.h:34-42 | In every state of a run the masked stack pointer is the slot of the running task. |
| Lists.NextPrevInverse | include/eza/list.h:30-51 | On every list `next` and `prev` are inverse to each other. |
| Lists.ApplyRefines | include/eza/list.h:30-104 | One operation on the links is prepending, appending or removing on the abstract sequences; every list stays one cycle and no node is on two. |
| Lists.RunRefines | include/eza/list.h:30-104 | The same for any run of operations over any number of lists. |
| Lists.ListArena.InitListHead | include/eza/list.h:30-34 | Starts an empty list and leaves the others alone. |
| Lists.ListArena.Insert | include/eza/list.h:43-51 | The four stores that put a node between two others. |
| Lists.ListArena.ListAdd | include/eza/list.h:61-64 | Prepends a node. |
| Lists.ListArena.ListAddTail | include/eza/list.h:74-77 | Appends a node. |
| Lists.ListArena.ListDel | include/eza/list.h:99-104 | Removes exactly that node, poisons its links, and leaves it on no list. |
| E820.DetectPhysicalMemory | mm/mm.c:42-80 | The kernel goes on exactly if some usable entry starts at 1 MB and the size test accepts where the first such entry ends; memory then ends there. |
| E820.AcceptsExactly | mm/mm.c:73-76 | The size test does what its message says exactly for no memory at all and for more than the required 24 MB (up to 24 MB short of 2^64 bytes); with anything between it boots. |
| E820.FoundExactly | mm/mm.c:113-167 | For every sorted map, the pass and the map agree on a page exactly if no usable entry that the pass never gets to covers it; it gets stuck at the first later entry whose rounded-down ends lie in the same page, and skips a first entry that does not start at 0. |
| E820.PassAgreesExactly | mm/mm.c:113-167 | On the memory that the kernel manages, up to the last whole page of the entry at 1 MB, pass and map agree at every address if and only if no entry before that one, other than the first, has both ends in the same page, and the first one starts at 0 or holds no usable page. |
| E820.CoversExactly | mm/mm.c:148-151 | Rounded down to pages, an entry covers a page exactly if it starts before the page's end and its own end, modulo 2^64, is not before the page's end. |
| E820.HidesAll | mm/mm.c:140-166 | One entry before the one at 1 MB, other than the first, with both ends in the same page keeps the pass from finding any memory from 1 MB on. |
| E820.FoundIsUsable | mm/mm.c:113-167 | If the first entry starts at 0 and no other has both rounded-down ends in the same page, the pass finds exactly the usable pages, at every address. |
| E820.StuckExample | mm/mm.c:140-166 | A map that `detect_physical_memory` accepts, with 2 KB reserved at 640 KB and 7 MB usable from 1 MB on, of which the pass finds nothing. |
| E820.InsideDecides | mm/mm.c:129-139 | On a page inside the current entry the entry's type decides, and the cursor stays right for the next page. |
| E820.GapDecides | mm/mm.c:160-166 | A page outside the entry that just became current is covered by no entry the pass gets to. |
| E820.SwitchTracks | mm/mm.c:141-159 | An entry is left exactly at its end, and moving to the next one keeps the cursor right for the same page. |
| PageArray.PhysicalMemory.InitializeZones | mm/mm.c:195-209 | Both zones start with empty lists and zero counters. |
| PageArray.PhysicalMemory.InitializePageArray | mm/mm.c:89-193 | One pass that ends: every zone's two lists are its free and its reserved pages in ascending order, every counter is the length of its list, and every page has its index, no references, its zone in the low two bits of its flags, and bit 2 exactly if it is on a reserved list. |
| PageArray.FramesMeaning | mm/mm.c:127-188 | Bit 2 of a page's flags tells whether it is on a reserved list, the bits below its zone, and there are no others. |
| PageArray.FreeIffUsable | mm/mm.c:119-173 | A whole page of the managed memory ends up free exactly if it is outside the kernel image and some usable entry, by its base and length, starts before the page's end and reaches it, when no entry before the one at 1 MB stops the pass. |
| PageArray.StuckReserves | mm/mm.c:140-173 | With an entry before the one at 1 MB, other than the first, whose ends lie in the same page, every page from 1 MB on is reserved, and the normal zone has no free page at all. |
| PageArray.PagesExactly | mm/mm.c:181-188 | A zone list holds exactly the pages of its zone and kind, in ascending order. |
| PageArray.PagesPartition | mm/mm.c:181-188 | Every page is on exactly one of the four lists, once. |
| PageArray.PagesCount | mm/mm.c:183-188 | The four list lengths add up to the number of pages. |
| PageArray.PhysicalMemory.FillCache | mm/mm.c:221-243 | One cache gets a prefix of the zone's free list; because the loop counts every page twice, the prefix is half the quota rounded up, or all that is left if that is less than half, and the cache's counter is twice its list. |
| PageArray.PhysicalMemory.InitializePercpuCaches | mm/mm.c:216-245 | The caches share out a prefix of the zone's free pages in order, each half its quota rounded up or all that is left; a quota is total / CPUs until the zone holds at most that plus the number of CPUs, then all the zone holds; the zone keeps the rest, its counters stay exact, and every cache's counters are twice the length of its list. |
| PageArray.DealtParts | mm/mm.c:216-245 | Each cache holds its own consecutive part of the list, so no page is lost or in two places. |
| PageArray.CutsShared | mm/mm.c:216-245 | How much each cache gets, for every number of CPUs and every zone: half of a quota that is fixed by the zone's total and by what it still holds. |
| PageArray.PhysicalMemory.BuildPageArray | mm/mm.c:247-256 | From an empty state to filled zones and caches, in the order of the boot code, with the final lists and counters of both zones and of every cache, and the length of every cache's part. |
| PageArray.PhysicalMemory.AllocPage | mm/pagealloc.c:38-66 | NULL for DMA requests; otherwise the first page of the cache, NULL when the counter is 0 (a fault if it is to be cleaned), and the list head itself, unlinked, when the counter exceeds the list. |
| PageArray.CacheIsPool | mm/pagealloc.c:47-57 | As long as its counter is at most the length of its list, a cache is the pool that the mapper is proved against: each call gives the first page and leaves the others, and NULL comes exactly if none is left. |
| PageArray.TakeManyExactly | mm/pagealloc.c:47-57 | Exactly what a run of calls returns: the pages of the list in order, then NULL, or the list head if the counter is larger than the list. |
| PageArray.PagesDistinct | mm/pagealloc.c:47-57 | No run returns the same page twice. |
| PageArray.BreaksExactly | mm/mm.c:233-243 | Some run breaks the list exactly if the counter exceeds its length; after boot that is exactly if the cache got any page. |
| Buddy.AllocateExactly | mm/bbuddy.c:146-216 | Fails exactly if no layer from the one wanted up to the root has a free block; otherwise splits the lowest free block of the nearest such layer, marks exactly the nodes on the way down as separated, hands out the first block of the layer wanted, and keeps free and taken blocks a partition. |
| Buddy.ServeKeeps | mm/bbuddy.c:70-73 | Over every run of requests the free and the taken blocks are an antichain that covers all leaves, and what is taken stays taken. |
| Buddy.NoOverlap | mm/bbuddy.c:146-216 | A leaf lies under at most one free or taken block. |
| Buddy.LeafRange | mm/bbuddy.c:67-73 | Block `num` of layer `align` consists of the leaves from `num` times its size on. |
| Buddy.DescendExactly | mm/bbuddy.c:167-181 | Splitting down m layers leaves exactly the second halves on offer, marks exactly the nodes split, and takes the first. |
| Buddy.SplitInv | mm/bbuddy.c:167-178 | Replacing a free node by its two children keeps the partition and the marks for separated nodes. |
| Buddy.FreshInv | mm/bbuddy.c:60-62 | With only the root on offer the partition holds. |
| Buddy.BuddyMap.constructor | mm/bbuddy.c:38-65 | From 32 blocks on exactly the root is free and every node is marked not separated. Below that the free nodes are the root and those whose bits the memory had set, and the invariant holds exactly if there were none; the marks stay as they were. |
| Buddy.BuddyMap.BlockAlloc | mm/bbuddy.c:67-73 | Returns the index in its layer of a block that was not taken before, or ENOBLOCK exactly if there is none, and the bitmaps then describe the new pool. |
| Buddy.BuddyMap.Alloc | mm/bbuddy.c:146-161 | The mutual climb and descent end and do on the bitmaps what `Allocate` says. |
| Buddy.BuddyMap.AllocLong | mm/bbuddy.c:190-212 | The same for layers of 32 and 64 nodes, whose bits lie in whole words. |
| Buddy.BuddyMap.AllocSmall | mm/bbuddy.c:160-188 | The same for the layers in the first word; past the root it returns ENOBLOCK. |
| Buddy.BuddyMap.Separate | mm/bbuddy.c:167-177 | The bit operations of a split are the split of that node and touch no other node. |
| Buddy.BuddyMap.Use | mm/bbuddy.c:163-166 | The bit operations of handing out a node touch no other node. |
| NumberPrinting.PrintRoundTrip | mlibc/kprintf.c:361-478 | For every 64-bit value, base, width, precision and flag without sign or prefix, the output with spaces removed reads back as the value. |
| NumberPrinting.PrintLength | mlibc/kprintf.c:408-422 | The length is the largest of width, precision and number of digits, plus one for the space flag. |
| NumberPrinting.SignedExactly | mlibc/kprintf.c:376-382 | A signed decimal reads back as its value exactly if it is not negative. |
| NumberPrinting.DigitCount | mlibc/kprintf.c:363-363 | A 64-bit value never has more digits than the temporary buffer has room for. |
| Emission.DigitSequence | mlibc/kprintf.c:400-406 | The digit loop ends and leaves the digits of the value in reverse. |
| Emission.Digit | mlibc/kprintf.c:361-478 | For every number, attributes and room, exactly what is written: padding in full or not at all, sign or prefix, zeros, the least significant digits that fit; without room for a sign, a prefix or the space flag the output ends there. 0 is returned only for no room. |
| Emission.EmitDigits | mlibc/kprintf.c:466-470 | The digits, most significant first; with too little room exactly as many of the least significant ones as there is room for. |
| Emission.CopyDigits | mlibc/kprintf.c:469-470 | The digits go to the buffer most significant first. |
| Emission.FlatNumber | mlibc/kprintf.c:408-476 | With room for all of it, the pieces that are written are the text of the number. |
| Emission.EmitFits | mlibc/kprintf.c:361-478 | Whenever the text fits the room, all of it is written and the output goes on. |
| Emission.CopyByteIp | mlibc/kprintf.c:481-489 | Writes one character if there is room and otherwise nothing. |
| Emission.MakeWidth | mlibc/kprintf.c:513-520 | Padding is written in full or not at all. |
| Emission.EmitString | mlibc/kprintf.c:314-334 | Padding and text each in full or not at all, on the proper side, for every room. |
| Emission.EmitChar | mlibc/kprintf.c:335-350 | A padded character, for every room; without room for the character the output ends. |
| Formatter.ContinueFacts | mlibc/kprintf.c:138-290 | What a directive goes on with is never a percent sign, a second character is skipped only if it doubles a length modifier, and a length modifier is never forgotten. |
| Formatter.RewindFacts | mlibc/kprintf.c:292-298 | A rewind goes back by exactly the characters counted so far, or not at all for a percent sign, and only a 0 without length modifiers leaves the directive open. |
| Formatter.VsnPrintf | mlibc/kprintf.c:117-356 | Ends for every format, never rewinds before the start, and leaves in the buffer, for every format, all arguments and every size, exactly what the format stands for, with that many characters as the result and nothing written beyond the size. |
| Formatter.RenderBack | mlibc/kprintf.c:298-305 | Copying the first character of a broken-off directive and reading the rest again as literals prints the directive as it stands. |
| Directives.MeaningPrinted | mlibc/kprintf.c:117-356 | Every format made of literals, `%%` and directives with agreeing flags, a width without 0 behind its first digit, a precision, a length modifier and a conversion prints the concatenation of what its items stand for, when that fits. |
| Directives.DirectiveWalk | mlibc/kprintf.c:133-290 | Reading a directive's text gives exactly the attributes that its flags, width, precision and length modifier ask for. |
| Directives.LongRoundTrip | mlibc/kprintf.c:156-190 | A number printed by any directive with a 64-bit length modifier, whatever its flags (without sign and prefix), width and precision, can be read back from the output. |
| Directives.LiteralFormat | mlibc/kprintf.c:298-304 | A format without percent signs is written as it is, as far as there is room. |
| Directives.IntArgument | mlibc/kprintf.c:491-505 | Without a length modifier the argument is the low half of its slot, sign-extended for signed conversions and zero-extended for unsigned ones. |
| Conversions.NumberPrinted | mlibc/kprintf.c:361-505 | For `%d`, `%i`, `%u`, `%x`, `%X`, `%o` and `%p` with any flags, width, precision and length modifier and any argument, the output is, character by character, the space, padding, sign or prefix, digits of the conversion's own alphabet and padding that the directive asks for, and the digits read as the argument. |
| Conversions.SpelledOnce | mlibc/kprintf.c:361-478 | Only one text is what a numeric directive asks for. |
| Conversions.StringPrinted | mlibc/kprintf.c:165-170 | `%s` prints its string, or `<NULL>`, padded with spaces on the right with a minus and on the left without. |
| Conversions.CharPrinted | mlibc/kprintf.c:161-164 | `%c` prints the character of the argument's low byte, padded in the same way. |
| Conversions.PointerPrinted | mlibc/kprintf.c:179-182 | `%p` prints `0x` and the lower-case hexadecimal digits of all 64 bits. |
| Conversions.NumberCut | mlibc/kprintf.c:466-470 | A bare number that does not fit leaves the digits of the number modulo the power of the base that the room holds. |
| Restarts.RestartStep | mlibc/kprintf.c:138-153 | The cursor goes back with the directive still open at exactly the 0s that follow a digit of the width, before any dot or length modifier. |
| Restarts.AgainExactly | mlibc/kprintf.c:138-240 | A directive is restarted exactly if its text is flags that do not refuse each other, digits from 1 to 9, and a 0. |
| Restarts.JamFills | mlibc/kprintf.c:298-305 | When the cursor comes to such a directive, what was written before stays, all that is left of the buffer becomes percent signs, and the result is the buffer's size. |
| Restarts.JamExactly | mlibc/kprintf.c:117-356 | For every format, all arguments and every size, the buffer is filled with percent signs if and only if the cursor comes, with room left, to a directive with a 0 behind the first digit of its width. |

## Left out

- Page tables: bits that the mapper always clears (no-execute, write-through and the like) are not represented, and neither are the TLB and the loading of cr3 at boot.
- Mapper.PageMemory.AllocPage: the allocator behind the mapper is a pool that returns NULL when it is empty, which the concrete one is while its counter is right (`PageArray.CacheIsPool`); after boot its counter is twice its list, and when exhausted it hands out the head of the list instead of NULL, which the -ENOMEM cases here and of `CreateNewTask` do not see; that the concrete one would fault while cleaning a NULL page, and that it takes the flag for kernel pages as a request for a DMA page, is shown for the allocator alone.
- Mapper.PageMemory.MmMapPages: the `frames_left` callback is never called by the mapper and is not modelled; the linear one has its subtraction reversed.
- Boot.ArchRemapMemory: one CPU; messages and the reload of cr3 are not modelled.
- Direct map: pages are addressed through the kernel's direct map; that it reaches only 2 GB enters through the limit on frame numbers.
- Tasks.TaskSystem.CreateNewTask: the parent is not NULL and uses the shared directory, which is all that the flag CLONE_MM allows; error paths release nothing, as in the code, where they are stubs.
- Tasks.TaskSystem.AllocTask: an empty pool gives -ENOMEM; that the concrete allocator, asked for a zeroed page, faults on NULL or hands out a list head instead is shown in `PageArray` alone.
- Idle tasks: their creation mixes the frames of the stack with those of new tables in one allocator callback; only the state in which an idle task runs alone is modelled (`TaskSwitch.TaskMachine.constructor`).
- Alias of the task structure: a task's saved context is addressed through its slot; the second mapping of the same page in the direct map is not modelled.
- TaskSwitch.ActivateEffect: the chosen task is suspended and not the running one, the stack pointer is 8-aligned, and there is room for the frame; the machine stops at misaligned or wrapping stack accesses.
- TaskSwitch.ThreadStarts: the flags other than the interrupt flag, and registers outside the sixteen general ones and the FX image, are not modelled; user-mode tasks get a frame of zeros in the code and take no part in runs.
- Interrupts, several CPUs and spinlocks: the lock macros expand to nothing; what an interrupt does between switches counts as work of the running task.
- Scheduler policy, timers, system calls, device drivers and bootstrap assembly.
- PageArray.PhysicalMemory.InitializePageArray: the page numbers of the kernel image and the size of the DMA zone are arguments. Counters and page numbers are unbounded.
- E820.DetectPhysicalMemory: the printed map, and the panic for a table of 255 entries, are not modelled.
- E820.FoundIsUsable: the map is sorted, its page-masked entries do not overlap or wrap, and a zeroed entry follows it within the table of 32.
- PageArray.PhysicalMemory.AllocPage: zeroing the contents of the page is modelled on page tables only; after the list head was taken the list is broken and the model says nothing further.
- Buddy release and coalescing, which mark every other node of a word as unsplit.
- Buddy.BuddyMap.BlockAlloc: at most 64 blocks and powers of two; from 128 blocks on the two bitmaps overlap and the returned index is off.
- Formatter.VsnPrintf: widths and precisions are unbounded; the model stops (`astray`) at a missing argument, an argument of the wrong kind, a precision beyond the end of a string, and a `*` that is honoured, which writes 8 bytes into an int.
- Directives.MeaningPrinted: at most one length modifier in a directive; the code accepts several.
- The kernel's print buffer and console.
