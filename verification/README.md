# Verified model of the riscv-os kernel and of OpenSBI's concurrent core

This Dafny project models the parts of the repository whose correctness is hard to see by
reading: the remote TLB shootdown, the memory and process management of the teaching kernel in
`os/`, OpenSBI's memory regions and PMP programming, the hart life cycle and boot synchronisation,
the bitmap searches behind IPI fan-out, and the value cache and expression syntax of Kconfiglib.
`dafny verify dfyconfig.toml` checks all of it.

## What is modelled

* **TLB shootdown** (`Fifo`, `TlbFlush`, `TlbProtocol`, `TlbPrecision`). The ring buffer is a class proved against
  the sequence it holds. Requests, merging and signalling are a step system over any number of harts:
  one step is one access to shared memory or one flush, and every interleaving is a run.
* **Kernel memory and processes** (`Sv39`, `KernelMemory`, `AddressSpace`, `Loader`, `Tasks`,
  `Scheduling`, `Ownership`, `UserView`, `TrapPages`, `Kernel`, `Boot`, `Lifecycle`). Physical memory
  is a sequence of frames of 512 words; page tables lie in those frames. A ghost plan says which frame
  serves which purpose; one invariant ties it to the allocator, to the bytes of the page tables and to
  the task table, and all process calls, user stores and the boot sequence are methods that keep it.
  `UserView` says what user code finds through the raw tables.
* **Memory regions and PMP** (`Domain`, `RegionSort`, `DomainRoot`, `MergeExample`, `RegionInit`,
  `PmpBytes`, `Pmp`, `PmpEntries`). Regions, the in-place exchange sort, buddy merging, the address
  check, the encoding of PMP registers and the hardware's matching rule (section 3.7.1 of the RISC-V
  Privileged Architecture v1.12).
* **Harts** (`Hsm`, `TicketLock`, `ColdBoot`). The compare-and-swap state machine, the 16-bit ticket
  lock and the cold-boot wake-up, each as atomic steps of n harts under sequential consistency.
* **Bit search and IPI fan-out** (`BitWords`, `BitSearch`, `IpiFanout`), against plain bit sequences.
* **Kconfiglib** (`KconfigExpr`, `KconfigCache`, `KconfigRules`, `KconfigSymbols`, `KconfigSyntax`).
  Lazily cached symbol values with invalidation that stops at uncached symbols, the rules those values
  obey and the values a user can choose, and the expression printer and parser.

`Common` and `Bits` hold words, options, initial segments and powers of two.

## Where the code does not do what one would hope

These are results about the code as it is, each with the condition under which it does.

* Merging a TLB request into an aligned waiting entry is safe exactly when its range does not wrap,
  it is not the pair (0, 0), and its page loop reaches all its bytes but at most one
  (`TlbFlush.MergeSoundExactly`; for any two requests `TlbFlush.PairSoundExactly`).
* `__sys_yield` is fair exactly when the live tasks fill the first `_top` slots; when a task in the
  middle exits, another one starves (`Scheduling.FairExactly`, `Scheduling.MiddleExitStarves`).
* `load_segment` sets `base_size` from the last loaded segment, and maps a second page, on a frame that
  is not the task's, for each page of a segment that is not page-aligned. Everything the user reaches
  is the task's own and lies below `base_size` exactly when the program headers satisfy `Loader.Fits`,
  and exec keeps the kernel's invariant exactly then (`Loader.BoundedExactly`; examples in
  `Loader.UnalignedExample` and `Loader.DescendingExample`).
* `sbi_domain_root_add_memregion` accepts a region of order 0, as one byte gives, and no region added
  after it has any effect (`DomainRoot.AddBehindZero`).
* A hart that is stopping can be told to stop again by a pending HALT, and that call fails; it is the
  only exchange of a hart on its own state that does (`Hsm.OwnSwapsExactly`).
* `sbi_domain_memregion_init` returns the whole memory for a range whose smallest block reaches the
  end of the address space, because the end of that block wraps to 0 (`RegionInit.SmallestExactly`,
  `RegionInit.LastPageGivesAll`).
* The sort of `sanitize_domain` does not compare every pair, so it overlooks conflicts between
  regions; `RegionSort.ReportedExactly` says which ones. Through `sbi_domain_root_add_memregion`
  none ever enters a table that had none.
* Merging buddies keeps every decision exactly when no region with the extent of their union but
  other flags takes part (`Domain.MergeSoundExactly`); otherwise later passes of
  `sbi_domain_root_add_memregion` can change who decides (`MergeExample.MergingCanChangeMeaning`).
* `__sys_getchar` writes to a user address without checking permissions. It breaks the words
  of a trap page by which a task enters the kernel exactly when it is pointed at them and the byte
  differs from the one there (`Kernel.CharKeepsWords`, `Kernel.CharBreaksWords`).
* `Symbol.assignable` lists exactly the values that take effect when set, for every visible symbol
  except a tristate that is visible up to m, selected by m and implied by y: it offers m and takes y
  (`KconfigRules.OfferedExactly`, `KconfigRules.TornHappens`).
* The ticket lock excludes in all runs exactly up to 2^16 contenders
  (`TicketLock.ExclusionExactly`).
* Reparsing a printed expression gives the same tree exactly when no left operand repeats its
  parent's operator (`KconfigSyntax.SameTreeExactly`); its value never changes.

## Model

| member | source | states |
|---|---|---|
| Fifo.AbsorbChangesOneSlot | opensbi-1.2/lib/sbi/sbi_fifo.c:124-155 | An in-place update either finds no entry to absorb the data, and leaves the queue as it was, or changes exactly one slot, the first the callback accepts. |
| Fifo.Ring.constructor | opensbi-1.2/lib/sbi/sbi_fifo.c:15-25 | A new ring is empty. |
| Fifo.Ring.Enqueue | opensbi-1.2/lib/sbi/sbi_fifo.c:61-74 | Fails exactly when the ring is full; otherwise the data is appended to the sequence the ring holds, across the wrap of the indices. |
| Fifo.Ring.Dequeue | opensbi-1.2/lib/sbi/sbi_fifo.c:175-198 | Fails exactly when the ring is empty; otherwise the oldest entry is taken from the front. |
| Fifo.Ring.InplaceUpdate | opensbi-1.2/lib/sbi/sbi_fifo.c:124-155 | Visits the entries oldest first and does to the held sequence what the pure update does. |
| TlbFlush.LocalFlush | opensbi-1.2/lib/sbi/sbi_tlb.c:31-191 | The fence instructions each of the seven local functions executes, page loops with wrap-around and both flush-all encodings included, hit exactly what the request is meant to flush. |
| TlbFlush.RegularRange | opensbi-1.2/lib/sbi/sbi_tlb.c:274-297 | The pages of a request with aligned start and no wrap form one interval. |
| TlbFlush.RangePages | opensbi-1.2/lib/sbi/sbi_tlb.c:79-98 | Any range without wrap flushes the pages from that of its start on, as many as an aligned range of its size would have. |
| TlbFlush.MergeCovers | opensbi-1.2/lib/sbi/sbi_tlb.c:317-339 | An entry that absorbed or skipped an admissible request covers what it covered before and the request, and keeps both sets of senders. |
| TlbFlush.MergesExactly | opensbi-1.2/lib/sbi/sbi_tlb.c:274-339 | Requests without wrap are merged if and only if they are of one sfence kind and ASID and the new one lies within the waiting one, or begins no later and ends after it; otherwise the entry stays. |
| TlbFlush.UpgradeCovers | opensbi-1.2/lib/sbi/sbi_tlb.c:341-358 | Turning a request above the flush limit into a full flush only adds pages. |
| TlbFlush.UpgradeExactly | opensbi-1.2/lib/sbi/sbi_tlb.c:353-358 | A request within the limit keeps its range and flushes the same items; one above it flushes every page of its own spaces and stage and nothing else; its other fields stay. |
| TlbFlush.MergeSoundExactly | opensbi-1.2/lib/sbi/sbi_tlb.c:274-339 | An sfence request, aligned or not, can be taken in by every admissible waiting entry without losing a page if and only if it does not wrap, is not the pair (0, 0), and its page loop reaches all of its bytes but at most one. |
| TlbFlush.CoversExactly | opensbi-1.2/lib/sbi/sbi_tlb.c:79-98 | Whether one sfence request covers another of its kind, for any starts and sizes, as a test on these numbers: arcs of pages around the address space, and the flush-all encodings. |
| TlbFlush.PairSoundExactly | opensbi-1.2/lib/sbi/sbi_tlb.c:274-339 | Merging any two requests, aligned or not, wrapping or not, loses nothing if and only if that test holds of the surviving range and the other one. |
| TlbFlush.UnalignedMergeLosesPage | opensbi-1.2/lib/sbi/sbi_tlb.c:274-339 | A waiting entry with unaligned start that swallows a request although it misses the request's only page. |
| TlbProtocol.StepKeeps | opensbi-1.2/lib/sbi/sbi_tlb.c:214-391 | Every step of every hart keeps the protocol invariant. |
| TlbProtocol.RunKeeps | opensbi-1.2/lib/sbi/sbi_tlb.c:214-391 | The invariant holds at the end of every run. |
| TlbProtocol.Completion | opensbi-1.2/lib/sbi/sbi_tlb.c:214-391 | In every interleaving, when a request returns, each target hart has since its start run a flush that covers the requested pages, even if the request was merged or skipped. |
| TlbPrecision.PreciseStep | opensbi-1.2/lib/sbi/sbi_tlb.c:214-391 | Every step keeps the invariant that all waiting, running and logged flushes were asked for by a request that names the hart, merged entries included. |
| TlbPrecision.Precision | opensbi-1.2/lib/sbi/sbi_tlb.c:214-410 | The other direction of completion: in every run, whatever the interleaving, each flush a hart has run removes only what some request that names the hart as a target asks for, or, if that request is longer than the limit, only pages of its spaces. |
| TlbProtocol.TokenConservation | opensbi-1.2/lib/sbi/sbi_tlb.c:222-271 | A hart is named in exactly one place (a waiting entry, an entry in service, or its own tlb_sync word) while it has an open request, and in none otherwise. |
| TlbProtocol.SignalNeverSpins | opensbi-1.2/lib/sbi/sbi_tlb.c:214-230 | The exchange that signals a sender always finds the word clear. |
| TlbProtocol.NoDeadlock | opensbi-1.2/lib/sbi/sbi_tlb.c:258-271 | While any hart has work, some hart can take a step that is not a poll. |
| TlbProtocol.StepWork | opensbi-1.2/lib/sbi/sbi_tlb.c:214-391 | Every step other than a new request lowers a measure of the work left. |
| TlbProtocol.EveryRequestFinishes | opensbi-1.2/lib/sbi/sbi_ipi.c:34-76 | Without new requests only boundedly many steps remain, and when none is possible every hart is idle with an empty queue. |
| Sv39.PteRoundTrip | os/src/address.c:187-216 | Page number and flags come back from an encoded entry. |
| Sv39.WalkStep | os/src/address.c:271-288 | An entry on the path is valid exactly when the table below it exists, and points to it. |
| Sv39.WalkIsLeaf | os/src/address.c:271-288 | The walk through the frames finds an entry exactly for mapped pages, and it is the entry the abstract mapping holds. |
| Sv39.GrowTable | os/src/address.c:244-269 | Linking a zeroed frame as a table keeps all page tables well formed and changes no mapping of any address space. |
| Sv39.WriteLeaf | os/src/address.c:291-296 | Writing a last-level entry changes the mapping of that page and of no other, in this or any other address space. |
| Sv39.DropTable | os/src/address.c:425-445 | Releasing a table without children keeps the remaining tables well formed. |
| Sv39.ClearDangling | os/src/address.c:425-445 | Clearing the entry that pointed to a released table closes the one hole that releasing it left. |
| KernelMemory.TakeRecycled | os/src/address.c:107-128 | Reusing a recycled frame keeps the books: every frame handed out is in use, recycled or lost, never two of these. |
| KernelMemory.TakeNew | os/src/address.c:107-128 | The same for a frame never used before. |
| KernelMemory.GiveBack | os/src/address.c:130-150 | The same for a frame that is released, also when the recycle stack is full and drops it. |
| KernelMemory.Machine.constructor | os/src/address.c:98-105 | A new allocator has given out nothing. |
| KernelMemory.Machine.Alloc | os/src/address.c:107-128 | Fails exactly when nothing is recycled and the range is used up; otherwise hands out a zeroed frame that served no purpose, the most recently recycled one if there is one. |
| KernelMemory.Machine.Recycle | os/src/address.c:130-150 | Reports a frame never allocated or freed twice exactly when it is, and otherwise pushes it unless the stack is full. |
| KernelMemory.Machine.Free | os/src/address.c:130-150 | A frame in use is released exactly once; neither panic is reached. |
| KernelMemory.Machine.FindPte | os/src/address.c:271-288 | Returns what the reference walk returns: an entry exactly for mapped pages. |
| KernelMemory.Machine.EnsureTable | os/src/address.c:244-269 | One level of find_pte_create adds at most the missing table and changes no mapping. |
| KernelMemory.Machine.FindPteCreate | os/src/address.c:244-269 | Adds the missing tables of the path and nothing else, and returns the page's cell. |
| KernelMemory.Machine.MapPage | os/src/address.c:291-296 | Maps one page that was not mapped and changes no other mapping; reports an already mapped page, and runs out of memory only when nothing is left to allocate. |
| KernelMemory.Machine.MapPages | os/src/address.c:298-315 | The loop adds exactly the pages of its range, in order; it succeeds only if none of them was mapped, stops as already mapped only if one was, and otherwise only when memory is exhausted. |
| KernelMemory.Machine.MapRange | os/src/address.c:298-315 | Maps exactly the pages a byte range touches to consecutive frames; an empty range is refused; it succeeds only if none of the pages was mapped, and stops only if one was or memory is exhausted. |
| KernelMemory.Machine.UnmapOne | os/src/address.c:406-422 | Unmaps one page if it is mapped and releases its frame on request. |
| KernelMemory.Machine.UnmapFree | os/src/address.c:406-422 | Unmaps exactly the range, releases exactly the frames mapped there, and touches no other address space. |
| KernelMemory.Machine.FreeTable | os/src/address.c:425-445 | Releases the table and all tables below it, each exactly once, in at most three levels; the leftover-page and double-free panics are not reached. |
| KernelMemory.Machine.FreeBelow | os/src/address.c:425-445 | The recursive branch releases exactly the subtree below one entry. |
| AddressSpace.NewRoot | os/src/task.c:44-48 | A fresh root table maps nothing and disturbs no other address space. |
| AddressSpace.NewSpace | os/src/task.c:44-58 | A new address space maps the trampoline and the trap page, without user access, and nothing else; fails only when memory is exhausted. |
| AddressSpace.AddPage | os/src/loader.c:67-75 | Allocating, filling and mapping a page gives the space exactly one more page, on a frame nobody used; at an address inside a page a second page is mapped to the frame after it. |
| AddressSpace.CopyPage | os/src/task.c:125-144 | One round of the copy loop. |
| AddressSpace.CopySpace | os/src/task.c:125-144 | The child gets the father's pages, flags and bytes on frames that were free before, and nothing else; the father is unchanged; fails only when memory is exhausted. |
| AddressSpace.DestroySpace | os/src/address.c:449-464 | Every frame of the address space is released exactly once, nothing else changes, and no panic of the teardown is reached. |
| AddressSpace.SpaceFramed | os/src/address.c:298-315 | Work on one address space leaves every other one intact. |
| AddressSpace.ClearExactly | os/src/address.c:425-445 | The last-level tables below a root are empty exactly when no page is mapped. |
| Loader.LoadSegment | os/src/loader.c:55-78 | One segment is loaded page by page, after the segments before it; a segment that is not page-aligned maps two pages in each round. |
| Loader.LoadImage | os/src/loader.c:48-88 | The space owns exactly the pages of the loaded segments and one stack page; each page holds its part of the file with the segment's permissions, and for an unaligned segment the next page is mapped to the next frame; base_size is as computed. It succeeds only if no page is claimed twice, and stops only if one is or memory is exhausted; the page below base_size is its own, cleared, and open to user reads and writes. |
| Loader.MappedMeansOverlap | os/src/loader.c:67-75 | The loader meets a mapped page exactly when a page is claimed twice: by two rounds of loading, by the stack, or by the trap area. |
| Loader.FitsByPage | os/src/loader.c:60-83 | The condition on the ends of the segments says that every loaded page is aligned and lies below base_size. |
| Loader.BoundedExactly | os/src/loader.c:60-83 | base_size bounds the pages of the space, and the space owns every frame it maps for the user, if and only if each loaded segment is page-aligned and ends at base_size or before. |
| Loader.StrayReaches | os/src/loader.c:67-75 | After loading an unaligned segment, user code reaches for each of its pages also the frame after that page's frame, whatever that frame is used for. |
| Loader.UnalignedExample | os/src/loader.c:67-75 | A program of one segment at 0x10800 that overlaps nothing and does not fit; page 0x11 is mapped without being its own. |
| Loader.UnalignedOverlapsItself | os/src/address.c:298-315 | An unaligned segment of two or more pages always stops the loader, whatever else the program loads. |
| Loader.LeftoverExactly | os/src/address.c:425-464 | After the three unmapping calls of a teardown the tables are empty if and only if no page from base_size up to the trap page was mapped. |
| Loader.LeftoverFollowed | os/src/address.c:425-445 | A leftover entry of a loaded page is followed like a table exactly if its segment has none of the three permissions; free_page_table panics at every other. |
| Loader.DescendingExample | os/src/loader.c:60-83 | Two aligned segments, the higher one first, that overlap nothing and leave page 0x20 above base_size 0x13000. |
| Loader.DescendingLeavesPage | os/src/address.c:425-464 | Tearing that program down leaves the entry of page 0x20 behind, which is valid and not taken for a table: the one free_page_table panics at. |
| Tasks.SwitchKeeps | os/src/trap.c:3-26 | A switch keeps the task tree, the count of live tasks, and that only the current task runs. |
| Tasks.ForkKeeps | os/src/task.c:107-123 | A new child in a free slot keeps the task tree; pids stay distinct. |
| Tasks.ExitKeeps | os/src/task.c:146-174 | After an exit every task still has a live parent and nobody has the exited task as parent. |
| Tasks.ReapKeeps | os/src/task.c:176-193 | A recycled slot is free and has no stale children. |
| Scheduling.PackedReaches | os/src/trap.c:8-22 | If the live tasks fill the first slots, each of them runs again and again. |
| Scheduling.FairExactly | os/src/trap.c:8-22 | Repeated yielding lets every live task run again and again if and only if the live tasks fill the slots below their number. |
| Scheduling.MiddleExitStarves | os/src/task.c:159-174 | When a task in the middle of a gapless table exits, the schedule that follows is unfair. |
| Ownership.Isolation | os/src/address.c:271-288 | No frame that one task's walk touches, as the page or as a table of any level, is touched by another task's walk, is a table of the kernel or a kernel stack, or waits on the recycle stack; the one exception is the trampoline on its own page. |
| Ownership.OwnedIsolates | os/src/address.c:107-150 | The ownership invariant isolates all tasks from each other, from the kernel's tables and stacks and from recycled frames. |
| Ownership.SpawnKeeps | os/src/trap.c:58-90 | Adding a task with its own memory keeps the ownership invariant. |
| Ownership.ReapKeepsOwned | os/src/task.c:176-193 | Giving up a task and its memory keeps it. |
| Ownership.ExecKeepsOwned | os/src/trap.c:92-115 | Replacing a task's address space keeps it. |
| Ownership.ExecDone | os/src/trap.c:92-115 | After exec the invariant holds if and only if the program headers fit (aligned, and ending below base_size); the image is loaded and nothing of the old space is left. |
| Ownership.WriteKeepsOwned | os/src/trap.c:29-38 | Writing data to a frame that is no page table keeps it. |
| Ownership.TeardownUndoesSpawn | os/src/task.c:176-193 | What a teardown takes away is exactly what fork added. |
| Ownership.NewTaskMemory | os/src/task.c:34-58 | The trap page and the empty address space of a new task are the only frames that change hands. |
| Ownership.CloneMemory | os/src/trap.c:58-90 | The child has the father's pages, flags and bytes on its own frames; word 10 (a0) of its trap page is 0, word 35 its own kernel stack, and every other word the father's. |
| UserView.ImageSeen | os/src/loader.c:54-77 | Through the raw page tables a loaded program finds every word of its file at the address its header gives, and may read, write and execute it exactly as the header's flags say. |
| UserView.StackSeen | os/src/loader.c:79-85 | The page below base_size reads as zeros and may be read and written but not executed. |
| UserView.GuardSeen | os/src/loader.c:79-80 | The page below the stack is not mapped, if no segment reaches beyond the end of the last one. |
| UserView.BasePlace | os/src/loader.c:61-82 | base_size is the page boundary two to three pages above the end of the last loaded segment. |
| UserView.ChildSees | os/src/task.c:125-144 | After the copy the child finds at every address below base_size what the father finds, with the same rights. |
| UserView.ViewKept | os/src/address.c:290-315 | A task whose tables, pages and trap page are as they were finds the same entries and words at every address but those of the shared trampoline. |
| TrapPages.ForkKeepsWords | os/src/trap.c:69-73 | After fork every task, the child included, enters the kernel through the same table and handler on its own kernel stack, if all did before. |
| TrapPages.ExecKeepsWords | os/src/trap.c:107-110 | exec keeps those words. |
| TrapPages.ReapKeepsWords | os/src/task.c:176-193 | Freeing a child keeps those of the others. |
| TrapPages.WriteKeepsWords | os/src/kerneltrap.S:10-62 | So does any write that spares words 34 to 36 of the trap pages, among them the saving of registers. |
| Kernel.Os.constructor | os/src/task.c:88-95 | The first task starts with counters 1; the kernel's invariant holds exactly if memory is owned as it should be. |
| Kernel.Os.DoYield | os/src/trap.c:3-26 | The next slot modulo the live count takes over exactly if it holds a live task and then runs, the one before it steps back, and nothing else changes; the count is never 0. |
| Kernel.Os.FindFree | os/src/task.c:107-123 | The first free slot, or none exactly when all are taken. |
| Kernel.Os.DoFork | os/src/trap.c:58-90 | Fails without effect exactly when no slot is free, stops only when memory is exhausted; otherwise the child is a copy on fresh frames with a new pid, all other frames and tasks are unchanged, and the invariant holds. Word 10 of the child's trap page is 0, word 35 its own kernel stack, and all others are the father's. |
| Kernel.Os.DoExec | os/src/trap.c:92-115 | The task owns exactly the new image, everything of the old space is released, no frame of another task changes, and the invariant holds if and only if the program headers fit; it succeeds only if no page is claimed twice, and stops only if one is or memory is exhausted. Word 33 of the trap page is the entry point, word 2 the new base_size, all others are kept; and the page below word 2 is the task's own, cleared, readable and writable. |
| Kernel.Os.AdoptChildren | os/src/task.c:146-157 | All children of a task become children of the first task. |
| Kernel.Os.DoExit | os/src/task.c:159-174 | Succeeds exactly when the task is not the first and the slot that takes over holds another live task, and otherwise the kernel stops; the task is then a zombie with its exit code, its children are the first task's, the next one runs, and nothing else of any task changes. |
| Kernel.Os.FindZombie | os/src/trap.c:129-147 | Finds the first zombie child, or tells whether there are children at all. |
| Kernel.Os.DoRecycle | os/src/trap.c:123-154 | Frees the first zombie child with exactly its frames, fails exactly when there are no children, and otherwise yields; the freed slot keeps its pid and kernel stack and is blank otherwise. |
| Kernel.Os.DoStore | os/src/address.c:271-288 | Succeeds exactly where the hardware lets user code read and write, which is on a page the task owns; sets one word of that page, which a load then finds at that address, and changes nothing else. |
| Kernel.SeenThrough | os/src/address.c:271-288 | At every address of a page of its own, or of its trap page, a task finds the word of the frame its page table names. |
| Kernel.Os.DoGetChar | os/src/trap.c:29-55 | Yields without a character; with one it writes the byte to wherever the task's page table leads, a page of its own or its trap page, and nowhere else; an unmapped address and the trampoline stop the kernel. That byte of the page is the character, every other byte is as before, and a load through the page table finds it at that address. |
| Kernel.PutByteReads | os/src/trap.c:51-52 | The byte written reads back, and the bytes above and below it in its word stay. |
| Kernel.Os.DoSave | os/src/kerneltrap.S:10-49 | Saving and patching registers on a trap sets words 1 to 33 of the current task's trap page and changes nothing else. |
| Kernel.BytePatchedSets | os/src/trap.c:51-52 | Writing a byte into a word changes that byte of the page and no other. |
| Kernel.CharKeepsWords | os/src/trap.c:51-52 | A character that does not go to words 34 to 36 of a trap page leaves every task entering the kernel as before. |
| Kernel.CharBreaksWords | os/src/trap.c:51-52 | One that does, and differs from the byte there, breaks that. |
| Kernel.OutsideUnnoticed | os/src/trap.c:157-194 | What stays within a task's own memory no other task can see. |
| Kernel.ForkUnnoticed | os/src/trap.c:58-90 | No task but the father and the child can see a fork. |
| Kernel.ReapUnnoticed | os/src/task.c:176-193 | No task that is left can see a child being freed. |
| Kernel.Os.Step | os/src/trap.c:157-194 | Any call leaves the kernel stopped or its invariant intact; a call that forks nothing and frees no child leaves every frame outside the caller's own memory in its place and with its contents. No call at all changes what another task finds at any address outside the trampoline; and unless a character is written over them, every task keeps its kernel stack, the kernel's table and the handler in its trap page. |
| Kernel.Os.Run | os/src/trap.c:157-194 | After any sequence of calls, interrupts and user stores the kernel has stopped, or its invariant holds, the tasks are isolated, no kernel stack moved, and, unless a character was written over those words, every task enters the kernel as it did. |
| Boot.MapKernel | os/src/address.c:355-366 | The kernel's mappings add kernel tables only and map exactly their range; they succeed only if no page of it was mapped, and stop only if one was or memory is exhausted. |
| Boot.MapStacks | os/src/address.c:333-348 | One frame and one page for each kernel stack, with the stack tops of all ten slots, on top of the mappings there were; fails only if memory is exhausted or a stack page is taken. |
| Boot.KernelSpace | os/src/address.c:355-376 | After kvminit the kernel's table maps text, data, trampoline and stacks, each with its permissions, and no other page; only kernel tables and stacks are in use. It succeeds only if these do not meet on a page, and fails only if they do or memory is exhausted. |
| Boot.FirstOwned | os/src/loader.c:91-103 | The first task owns its memory if and only if its program headers fit. |
| Boot.BootSystem | os/src/main.c:3-31 | Boot leads to a state that satisfies the kernel's invariant if and only if the first program's headers fit, with the program loaded and the first task's registers set; it fails only if memory is exhausted, the kernel's mappings meet, or the program's pages do. |
| Boot.StacksApart | os/src/address.c:333-347 | Every slot's kernel stack pointer starts at the end of the slot's own page, no two slots share one, and the pages on either side are no kernel stack. |
| Boot.BootAndRun | os/src/main.c:3-31 | From power-on, any sequence of calls, interrupts and stores leaves the kernel stopped or its tasks isolated, each with the kernel stack of its slot and, unless a character was written over them, the right words to enter the kernel by. |
| Lifecycle.Life | os/src/trap.c:157-290 | Through any run of calls in which nothing is forked or freed and only the child replaces its memory, the plan of frames outside the child's memory stays what it was before the fork; contents stay as well if only the child writes. |
| Lifecycle.ForkLiveReap | os/src/trap.c:58-154 | Whoever forks, from any state that satisfies the invariant, and whatever such run follows, the recycle that returns the child's pid leaves exactly the frames in use that were in use before the fork. |
| Lifecycle.ForkExitRecycle | os/src/trap.c:58-154 | A schedule in which all of it succeeds: with the live tasks in the first slots and the last of them forking, the child runs, exits and is recycled, and the frames in use and their contents are those from before. |
| Domain.FirstIsSmallest | opensbi-1.2/lib/sbi/sbi_domain.c:104-141 | In a sorted list the first region that contains an address is a smallest one. |
| Domain.ValidExactly | opensbi-1.2/lib/sbi/sbi_domain.c:144-156 | A region is valid if and only if its order is 3 to 64 and its base a multiple of its size. |
| Domain.SameBlock | opensbi-1.2/lib/sbi/sbi_domain.c:144-156 | Two valid regions of the same size that share an address are the same block. |
| Domain.DeciderUnique | opensbi-1.2/lib/sbi/sbi_domain.c:104-141 | Without two regions of the same extent, the deciding region does not depend on the listing order. |
| Domain.TwinsAmbiguous | opensbi-1.2/lib/sbi/sbi_domain.c:188-199 | With two such regions it does. |
| Domain.UnionContains | opensbi-1.2/lib/sbi/sbi_domain.c:508-512 | Two buddies that pass the merge test are together exactly the region they are replaced by. |
| Domain.MergeableExactly | opensbi-1.2/lib/sbi/sbi_domain.c:508-511 | Two regions in order are merged if and only if they are the halves of one block and have the same flags. |
| Domain.MergeSoundExactly | opensbi-1.2/lib/sbi/sbi_domain.c:502-522 | Merging two buddies keeps every decision if and only if no region with the extent of their union and other flags is second only to them somewhere. |
| Domain.MergeTwinFree | opensbi-1.2/lib/sbi/sbi_domain.c:502-522 | The condition under which merging is safe survives merging. |
| RegionSort.SortRow | opensbi-1.2/lib/sbi/sbi_domain.c:254-277 | One round of the exchange sort puts the least remaining region into its place and permutes the rest. |
| RegionSort.SortRegions | opensbi-1.2/lib/sbi/sbi_domain.c:254-277 | The array is permuted in place into order by size and base, or a conflict is reported; which of the two is what the pure double loop says. |
| RegionSort.Simulation | opensbi-1.2/lib/sbi/sbi_domain.c:254-277 | The exchange sort makes the same comparisons as a pass over a list that carries the smallest region along and takes it off at the end. |
| RegionSort.ReportedExactly | opensbi-1.2/lib/sbi/sbi_domain.c:254-277 | For regions of distinct extents the sort reports a conflict if and only if some conflicting pair is listed smaller region first, or larger first with nothing before the smaller one that lies between the two in order. |
| RegionSort.SortedReportsAll | opensbi-1.2/lib/sbi/sbi_domain.c:254-277 | In a list that is in order already it reports a conflict if and only if there is one. |
| RegionSort.SortedStays | opensbi-1.2/lib/sbi/sbi_domain.c:254-277 | A list that is in order already is not touched. |
| RegionSort.NothingToReport | opensbi-1.2/lib/sbi/sbi_domain.c:177-185 | Without conflicting pairs it never reports one. |
| RegionSort.OverlooksConflict | opensbi-1.2/lib/sbi/sbi_domain.c:254-277 | Three nested regions whose conflict is overlooked, for any two flag words. |
| RegionSort.SubsetMeans | opensbi-1.2/lib/sbi/sbi_domain.c:159-174 | On valid regions the subset test is inclusion of addresses, except that the whole memory is never found to contain anything. |
| RegionSort.MergeNoConflicts | opensbi-1.2/lib/sbi/sbi_domain.c:508-520 | Merging two buddies of a list without conflicting pairs makes none. |
| DomainRoot.AllowedIsFirst | opensbi-1.2/lib/sbi/sbi_domain.c:104-141 | For S- and U-mode the check is decided by the first region that contains the address. |
| DomainRoot.MachineMeans | opensbi-1.2/lib/sbi/sbi_domain.c:124-140 | For M-mode the first region that binds it and contains the address decides; without one access is allowed. |
| DomainRoot.ListingIrrelevant | opensbi-1.2/lib/sbi/sbi_domain.c:104-141 | Two sorted listings of the same regions allow the same accesses. |
| DomainRoot.Root.constructor | opensbi-1.2/lib/sbi/sbi_domain.c:616-634 | The root domain starts with the firmware region and the whole memory, which do not conflict if their flags differ. |
| DomainRoot.Root.CheckAddr | opensbi-1.2/lib/sbi/sbi_domain.c:104-141 | The loop computes the specified decision for every mode and access. |
| DomainRoot.Root.Sanitize | opensbi-1.2/lib/sbi/sbi_domain.c:201-304 | Accepts exactly if the possible-harts mask is there and names only harts there are, and the list is valid, contains the firmware region, passes the conflict test of the sort and lets the next stage execute at its address; then the regions are in order and the ones from before. A refusal has one of these reasons. |
| DomainRoot.AcceptedExactly | opensbi-1.2/lib/sbi/sbi_domain.c:202-306 | A table is accepted if and only if its regions are valid and include the firmware region, the sort meets no conflict, the possible harts exist, and the next stage is in S- or U-mode in memory whose first region may be executed. |
| DomainRoot.Root.MergeHere | opensbi-1.2/lib/sbi/sbi_domain.c:513-520 | Two neighbours are replaced by their union and the rest of the array moves up. |
| DomainRoot.Root.MergePass | opensbi-1.2/lib/sbi/sbi_domain.c:502-522 | Does what the pure pass does: merges exactly if some neighbours can be merged, creates no conflict, and keeps every decision under the stated condition. |
| DomainRoot.Root.Clashes | opensbi-1.2/lib/sbi/sbi_domain.c:476-483 | Reports a conflict with an existing region exactly when there is one. |
| DomainRoot.Root.AddRegion | opensbi-1.2/lib/sbi/sbi_domain.c:462-526 | For every region, of order 0 too: it succeeds exactly if there is room, nothing conflicts and each round of sanitizing accepts, and leaves the table the pure loop leaves, valid, sorted and fully merged. The region takes effect exactly if its order is not 0 and none of order 0 came before it. If no region is filled up by smaller ones with equal flags, every address is decided as by the old regions and the new one. A table without conflicting pairs stays one. The merge loop terminates. |
| DomainRoot.NoHalvesLeft | opensbi-1.2/lib/sbi/sbi_domain.c:491-523 | In the table that results no two neighbours are the halves of one block with the same flags. |
| DomainRoot.OptimizedStays | opensbi-1.2/lib/sbi/sbi_domain.c:491-523 | Sorting and merging leave a table alone that is in order and fully merged. |
| DomainRoot.AddBehindZero | opensbi-1.2/lib/sbi/sbi_domain.c:485-489 | A region of order 0 is accepted, and the region added after it has no effect. |
| DomainRoot.AllowedBySmallest | opensbi-1.2/lib/sbi/sbi_domain.c:462-526 | After a successful addition the check allows exactly what the smallest region among the old ones and the new one grants. |
| MergeExample.MergingCanChangeMeaning | opensbi-1.2/lib/sbi/sbi_domain.c:462-526 | From the table sbi_domain_init makes, three additions succeed, and the last one, of a region with flags g next to others with flags g, passes address 40 from flags g to the firmware region's flags h; for any g and f that allow execution and any other h. |
| RegionInit.Log2RoundUp | opensbi-1.2/lib/sbi/sbi_math.c:12-23 | The least exponent whose power of two is not below the argument, at most 64. |
| RegionInit.MemregionInit | opensbi-1.2/lib/sbi/sbi_domain.c:75-102 | The least order that is large enough and passes the test, with its block, or the whole memory. |
| RegionInit.SmallestExactly | opensbi-1.2/lib/sbi/sbi_domain.c:75-102 | There is a smallest block around the range, and the region is that one if and only if it does not end at the end of memory or is all of it. |
| RegionInit.LastPageGivesAll | opensbi-1.2/lib/sbi/sbi_domain.c:75-102 | The last page of memory is a block of order 12, and the region that comes out is the whole memory. |
| RegionInit.OneByteGivesOrderZero | opensbi-1.2/lib/sbi/sbi_domain.c:75-102 | A range of one byte gives a region of order 0, except for the last byte of memory. |
| PmpBytes.ByteWritten | opensbi-1.2/lib/sbi/riscv_asm.c:273-277 | The written configuration byte reads back. |
| PmpBytes.OtherBytes | opensbi-1.2/lib/sbi/riscv_asm.c:273-277 | The other seven bytes of the register are unchanged. |
| Pmp.Ctz | opensbi-1.2/lib/sbi/riscv_asm.c:234-247 | Counts trailing zeros; 64 for 0. |
| Pmp.CtzIsOnes | opensbi-1.2/lib/sbi/riscv_asm.c:335-337 | Trailing zeros of the complement are trailing ones. |
| Pmp.AddressRoundTrip | opensbi-1.2/lib/sbi/riscv_asm.c:279-290 | A naturally aligned range of 8 bytes to the whole memory comes back from its encoding. |
| PmpEntries.Registers.Set | opensbi-1.2/lib/sbi/riscv_asm.c:249-297 | Refuses bad parameters without effect; otherwise writes exactly one entry. |
| PmpEntries.Registers.Get | opensbi-1.2/lib/sbi/riscv_asm.c:299-350 | Decodes the entry. |
| PmpEntries.RoundTrip | opensbi-1.2/lib/sbi/riscv_asm.c:249-350 | pmp_get after pmp_set returns the address, the length and the protection byte with its A field set; all other entries read as before. |
| PmpEntries.EntryOfMatches | opensbi-1.2/lib/sbi/sbi_hart.c:315-317 | The entry for a region matches exactly the region's addresses under the hardware's rule. |
| PmpEntries.FourBytesMatch | opensbi-1.2/lib/sbi/riscv_asm.c:249-297 | An entry set for four bytes matches exactly those. |
| PmpEntries.EntryOfGrants | opensbi-1.2/lib/sbi/sbi_hart.c:305-313 | It grants exactly the region's rights and is locked exactly if the region binds M-mode; the software check grants the same to accesses of the region's kind, device or memory, only. |
| PmpEntries.ProgrammedCount | opensbi-1.2/lib/sbi/sbi_hart.c:297-323 | As many entries are used as regions are at least as large as the granularity and start within reach of the address bits, or as there are entries. |
| PmpEntries.ProgrammedPlace | opensbi-1.2/lib/sbi/sbi_hart.c:297-323 | Such a region takes the entry after those of the earlier ones; a region below the granularity or out of reach takes none. |
| PmpEntries.Configure | opensbi-1.2/lib/sbi/sbi_hart.c:286-323 | The n-th region that is at least as large as the granularity and starts within reach of the address bits is in entry n, as long as there are entries; all entries behind those are unchanged. |
| PmpEntries.HardwareMeans | opensbi-1.2/lib/sbi/sbi_hart.c:286-323 | The programmed hardware gives S- and U-mode the rights of the first region around an address, M-mode too if that region binds it, and without one lets only M-mode through. |
| PmpEntries.SoftwareMeans | opensbi-1.2/lib/sbi/sbi_domain.c:104-141 | The address check gives S- and U-mode the rights of the first region around an address for its kind of access, M-mode too if that region binds it, and without one lets only M-mode through. |
| PmpEntries.SoftwareIsHardware | opensbi-1.2/lib/sbi/sbi_domain.c:104-141 | Entries and address check agree for S- and U-mode if and only if no region is around the address, the access is of the first one's kind, or it lacks the rights anyway; for M-mode likewise where that region binds it, and elsewhere the hardware allows all. |
| PmpEntries.ConfiguredAgrees | opensbi-1.2/lib/sbi/sbi_hart.c:286-323 | After programming registers that were off, the same equivalence holds for the whole domain at every address whose deciding region is in range and has an entry. |
| PmpEntries.AgreesEverywhere | opensbi-1.2/lib/sbi/sbi_hart.c:286-323 | With room for all regions, every order at least that of the granularity and every base below 4 * (2^addrbits - 1), hardware and software agree at every address for accesses of the deciding region's kind. |
| PmpEntries.ProgramDomain | opensbi-1.2/lib/sbi/sbi_hart.c:286-323 | Registers out of reset, programmed with such a domain, decide every S- and U-mode access of the deciding region's kind as the address check does. |
| Hsm.StepKeeps | opensbi-1.2/lib/sbi/sbi_hsm.c:96-322 | Every step of every hart keeps the invariant that relates control points and states. |
| Hsm.ControlFixesState | opensbi-1.2/lib/sbi/sbi_hsm.c:96-497 | In every run a hart's control point fixes its state up to the remote step from stopped to start-pending, and no hart hangs. |
| Hsm.OwnSwapsExactly | opensbi-1.2/lib/sbi/sbi_hsm.c:300-497 | An exchange a hart makes on its own state fails if and only if it is a stop repeated while the hart is stopping, and then nothing changes. |
| Hsm.StartAnswers | opensbi-1.2/lib/sbi/sbi_hsm.c:268-281 | A start call succeeds exactly when it changes its target's state, which then is off or waiting; it answers that the target already runs exactly when it does; on a target that is booting, stopping, suspended or resuming it is invalid; without success nothing changes. |
| Hsm.RepeatedStop | opensbi-1.2/lib/sbi/sbi_ipi.c:164-167 | Every running hart can meet that case: it stops, and finds a HALT pending on its way out. |
| Hsm.OneWinnerPerStop | opensbi-1.2/lib/sbi/sbi_hsm.c:249-298 | Between any two moments the successful start calls on a hart equal its stops, corrected by the states at both ends; at most one wins each stopped period. |
| Hsm.PendingUntilJump | opensbi-1.2/lib/sbi/sbi_init.c:358-448 | A start call that succeeded stays pending until the hart jumps to its next stage. |
| Hsm.StartCompletes | opensbi-1.2/lib/sbi/sbi_hsm.c:96-170 | Wherever a hart is when a start call on it has succeeded, off, entering or waiting, its own steps alone take it to its next stage and change no other hart. |
| TicketLock.StepKeeps | opensbi-1.2/lib/sbi/riscv_locks.c:22-77 | Every step keeps the relation between the 16-bit counters and the running numbers of the tickets. |
| TicketLock.Safety | opensbi-1.2/lib/sbi/riscv_locks.c:48-77 | With at most 2^16 contenders every run keeps mutual exclusion and first-come order across any number of wraps. |
| TicketLock.TryExact | opensbi-1.2/lib/sbi/riscv_locks.c:22-46 | spin_trylock returns true exactly when it took the lock, which is exactly when nobody held or waited for it. |
| TicketLock.ExclusionExactly | opensbi-1.2/lib/sbi/riscv_locks.c:48-77 | Mutual exclusion holds in every run of n contenders if and only if n is at most 2^16. |
| ColdBoot.StepKeeps | opensbi-1.2/lib/sbi/sbi_init.c:168-234 | Every step keeps the invariant on lottery, lock, wait mask and wake-ups. |
| ColdBoot.SingleColdBoot | opensbi-1.2/lib/sbi/sbi_init.c:450-516 | In a whole run at most one hart executes the cold-boot path, and none does after it is through, however often harts stop and enter sbi_init again. |
| ColdBoot.NoLostWakeup | opensbi-1.2/lib/sbi/sbi_init.c:168-234 | Once the waker is through, every hart that still sleeps has an interrupt pending. |
| ColdBoot.OnlyWaitersWoken | opensbi-1.2/lib/sbi/sbi_init.c:217-234 | Every interrupt that does not come from outside is sent by the winner of the lottery, after cold boot is done, to another hart that is waiting. |
| ColdBoot.EverybodyFinishes | opensbi-1.2/lib/sbi/sbi_init.c:168-234 | Once coldboot_done is set the harts take boundedly many steps, at most nine more for each restart, and when none is possible all are through. |
| BitWords.Ffs | opensbi-1.2/include/sbi/sbi_bitops.h:45-74 | The position of the lowest set bit. |
| BitWords.Fls | opensbi-1.2/include/sbi/sbi_bitops.h:90-119 | The position of the highest set bit. |
| BitSearch.FillIsKeep | opensbi-1.2/lib/sbi/sbi_bitops.c:162-200 | The OR masks of the zero variants are the AND masks on the complement. |
| BitSearch.FindFirst | opensbi-1.2/lib/sbi/sbi_bitops.c:22-73 | find_first_bit and find_first_zero_bit return what a scan of the bit sequence returns. |
| BitSearch.FindNext | opensbi-1.2/lib/sbi/sbi_bitops.c:117-200 | So do find_next_bit and find_next_zero_bit, from any offset. |
| BitSearch.FindLast | opensbi-1.2/lib/sbi/sbi_bitops.c:82-109 | The last set bit below the size, or the size. |
| BitSearch.ForEachSetBit | opensbi-1.2/include/sbi/sbi_bitops.h:121-124 | The body runs for exactly the set bits, in ascending order. |
| IpiFanout.AssignedMask | opensbi-1.2/lib/sbi/sbi_domain.c:47-65 | The 64 bits of the hart mask from any position, across the word boundary. |
| IpiFanout.InterruptibleMask | opensbi-1.2/lib/sbi/sbi_hsm.c:69-94 | Exactly the started or suspended harts of the domain in the window; an error exactly when the window starts past the last hart. |
| IpiFanout.SendMask | opensbi-1.2/lib/sbi/sbi_ipi.c:96-100 | One call for each set bit, in ascending order. |
| IpiFanout.SendAll | opensbi-1.2/lib/sbi/sbi_ipi.c:101-111 | With hbase -1 every interruptible hart of the domain gets exactly one call. |
| IpiFanout.SendMany | opensbi-1.2/lib/sbi/sbi_ipi.c:83-114 | Exactly the interruptible harts selected by mask and base get a call, each one once. |
| KconfigCache.CachedCarries | opensbi-1.2/scripts/Kconfiglib/kconfiglib.py:5988-6014 | A short-circuiting evaluation over the cache only depends on the entries of the symbols the expression mentions. |
| KconfigCache.CacheIsRight | opensbi-1.2/scripts/Kconfiglib/kconfiglib.py:4428-4505 | Every entry of a coherent cache is the value computed from scratch. |
| KconfigCache.SolutionExists | opensbi-1.2/scripts/Kconfiglib/kconfiglib.py:4428-4505 | An acyclic configuration has values that satisfy all definitions. |
| KconfigCache.SolutionUnique | opensbi-1.2/scripts/Kconfiglib/kconfiglib.py:4428-4505 | They are unique. |
| KconfigCache.SweepKeeps | opensbi-1.2/scripts/Kconfiglib/kconfiglib.py:4865-4894 | After invalidation from a symbol whose user value changed, the cache is coherent with the new user values. |
| KconfigCache.NoPromptNoEffect | opensbi-1.2/scripts/Kconfiglib/kconfiglib.py:4896-4916 | The user value of a symbol without a prompt has no effect, so skipping invalidation is right. |
| KconfigRules.LogicLaws | opensbi-1.2/scripts/Kconfiglib/kconfiglib.py:5988-6014 | Conjunction and disjunction are the lower and the higher operand, negation swaps n and y and keeps m, De Morgan's law holds. |
| KconfigRules.RelationLaws | opensbi-1.2/scripts/Kconfiglib/kconfiglib.py:6016-6042 | Of two items exactly one of less, equal and greater holds, ordered n, m, y; the other relations are their complements. |
| KconfigRules.VisibilityRules | opensbi-1.2/scripts/Kconfiglib/kconfiglib.py:6286-6313 | The visibility is the highest prompt condition, m read as y for a symbol that has no m; ShownUnique adds that this leaves no choice. |
| KconfigRules.ValueRules | opensbi-1.2/scripts/Kconfiglib/kconfiglib.py:4449-4488 | In every solution the value is what was wished, raised to what selects the symbol, and m only where there is an m and no y implies it; wished is the lower of user value and visibility, or else the first default whose condition is not n, cut to it, raised to what implies the symbol if its dependencies are met. |
| KconfigRules.ObeysUnique | opensbi-1.2/scripts/Kconfiglib/kconfiglib.py:4449-4488 | Those rules leave no choice of value. |
| KconfigRules.SelectFacts | opensbi-1.2/scripts/Kconfiglib/kconfiglib.py:4474-4488 | A symbol is at least what selects it, and a bool, or a tristate without modules, is never m. |
| KconfigRules.WishFacts | opensbi-1.2/scripts/Kconfiglib/kconfiglib.py:4452-4454 | Without selects a visible symbol takes the lower of user value and visibility; only m may become y. |
| KconfigRules.DefaultFacts | opensbi-1.2/scripts/Kconfiglib/kconfiglib.py:4456-4466 | Without a user value that counts, selects and implies, it takes the first default whose condition is not n, cut to the condition, or n. |
| KconfigRules.AfterSet | opensbi-1.2/scripts/Kconfiglib/kconfiglib.py:4558-4645 | Setting a user value leaves all symbols of lower rank as they were, so the new value follows from the old ones. |
| KconfigRules.OfferedExactly | opensbi-1.2/scripts/Kconfiglib/kconfiglib.py:4813-4857 | A value is assignable if and only if setting it makes it the value, for every visible symbol except one selected by m and implied by y at visibility m, which is offered m and takes y; an invisible symbol is offered nothing and does not change. |
| KconfigRules.SetTakes | opensbi-1.2/scripts/Kconfiglib/kconfiglib.py:4558-4645 | A value within the visibility and not below what selects the symbol is taken, m with the usual exception. |
| KconfigRules.TornHappens | opensbi-1.2/scripts/Kconfiglib/kconfiglib.py:4847-4857 | A configuration in which the exception occurs. |
| KconfigSymbols.Kconfig.constructor | opensbi-1.2/scripts/Kconfiglib/kconfiglib.py:3466-3508 | The dependents are built and nothing is cached. |
| KconfigSymbols.Kconfig.DependOn | opensbi-1.2/scripts/Kconfiglib/kconfiglib.py:6316-6332 | Adds a dependent to exactly the symbols an expression mentions. |
| KconfigSymbols.Kconfig.BuildDep | opensbi-1.2/scripts/Kconfiglib/kconfiglib.py:3466-3508 | The dependents of a symbol are exactly the symbols that mention it. |
| KconfigSymbols.Kconfig.ExprValue | opensbi-1.2/scripts/Kconfiglib/kconfiglib.py:5988-6042 | Evaluates with short-circuiting, relations on bool and tristate symbols included; fills caches but changes no cached value. |
| KconfigSymbols.Kconfig.Visibility | opensbi-1.2/scripts/Kconfiglib/kconfiglib.py:6286-6313 | Computes and caches the visibility, promoting m where the symbol is not a tristate. |
| KconfigSymbols.Kconfig.TriValue | opensbi-1.2/scripts/Kconfiglib/kconfiglib.py:4428-4505 | Computes and caches the value; the cache stays coherent, so the value is that of the solution (CacheIsRight), which obeys the rules (ValueRules). |
| KconfigSymbols.Kconfig.RecInvalidate | opensbi-1.2/scripts/Kconfiglib/kconfiglib.py:4865-4894 | Although it stops at uncached symbols, nothing that depends on a dropped entry stays cached; it terminates because cached symbols run out. |
| KconfigSymbols.Kconfig.InvalidateAll | opensbi-1.2/scripts/Kconfiglib/kconfiglib.py:3541-3548 | Nothing stays cached. |
| KconfigSymbols.Kconfig.Set | opensbi-1.2/scripts/Kconfiglib/kconfiglib.py:4558-4645 | Accepts exactly the values that suit the type, stores them, and keeps the cache coherent. |
| KconfigSymbols.Kconfig.Unset | opensbi-1.2/scripts/Kconfiglib/kconfiglib.py:4647-4654 | Removes the user value and keeps the cache coherent. |
| KconfigSymbols.Kconfig.Read | opensbi-1.2/scripts/Kconfiglib/kconfiglib.py:4428-4505 | Returns the value computed from scratch, whatever was read and set before; it obeys the rules stated for ValueRules under the current user values. |
| KconfigSymbols.Kconfig.ReadVis | opensbi-1.2/scripts/Kconfiglib/kconfiglib.py:4517-4523 | The same for the visibility, which is the highest prompt condition. |
| KconfigSymbols.Kconfig.Assignable | opensbi-1.2/scripts/Kconfiglib/kconfiglib.py:4813-4857 | Returns the assignable values under the current solution. |
| KconfigSymbols.Kconfig.SetThenRead | opensbi-1.2/scripts/Kconfiglib/kconfiglib.py:4558-4645 | After set_value, tri_value of a visible symbol is the value set if and only if it was assignable before, with the one exception; n and y within the visibility and not below what selects the symbol always are; an invisible symbol keeps its value. |
| KconfigSymbols.Kconfig.Run | opensbi-1.2/scripts/Kconfiglib/kconfiglib.py:4558-4654 | After any sequence of reads, set_value and unset_value every cached value equals recomputation from scratch under the user values that result. |
| KconfigSyntax.Parser.ParseExpr | opensbi-1.2/scripts/Kconfiglib/kconfiglib.py:3376-3415 | The parser object does what the grammar function says, consuming exactly the expression. |
| KconfigSyntax.Parser.ParseAndExpr | opensbi-1.2/scripts/Kconfiglib/kconfiglib.py:3417-3424 | The same for conjunctions. |
| KconfigSyntax.Parser.ParseOne | opensbi-1.2/scripts/Kconfiglib/kconfiglib.py:3426-3460 | The same for factors, with errors exactly on malformed input. |
| KconfigSyntax.RoundTrip | opensbi-1.2/scripts/Kconfiglib/kconfiglib.py:6060-6101 | Parsing a printed expression consumes all tokens and gives the expression with chains leaning to the right, with or without the rewrite of m. |
| KconfigSyntax.ReparseKeepsValue | opensbi-1.2/scripts/Kconfiglib/kconfiglib.py:5988-6101 | The reparsed expression has the same value under every assignment. |
| KconfigSyntax.SameTreeExactly | opensbi-1.2/scripts/Kconfiglib/kconfiglib.py:6060-6101 | It is the same tree if and only if no left operand repeats its parent's operator. |

## Left out

- DomainRoot.Root.AddRegion: keeping the meaning is shown under a sufficient condition on the regions (distinct extents, none filled up by smaller ones with equal flags); the condition is exact for a single merge, not for a whole call.
- RegionSort.ReportedExactly: two regions of the same extent and different flags are excluded; with them the order in which the sort meets equals decides.
- TlbFlush.MergeSoundExactly: waiting entries are taken to be aligned, without wrap and not the pair (0, 0), as are the requests of the protocol runs; PairSoundExactly is about any two.
- TlbProtocol.EveryRequestFinishes: assumes no fairness between harts beyond taking steps while any is possible, and that target harts stay started while a request is open.
- Kernel.Os.Run: exec calls must bring a program that loads something and whose headers fit (aligned segments that end below base_size); a panic counts as a stop; pids do not wrap; printf and the name lookup of exec, which only read through the page table, are not calls of the model.
- Kernel.Os.DoRecycle: one round of the endless loop; a parent that has to wait yields and repeats the call.
- BitSearch.FindFirst: one method serves the set and the cleared variant; the masks of the cleared variant are related to it by FillIsKeep.
- PmpEntries.RoundTrip: the address register keeps all 64 bits written to it; section 3.7.1 gives it 54, so on such hardware the entry for the whole memory reads back with fewer ones.
- PmpEntries.ConfiguredAgrees: locked entries are written like others, and write-only flags (a reserved encoding) are treated literally; M-mode is compared in SoftwareIsHardware only.
- Shifts by 64, which C leaves undefined, use the low six bits of the distance as RISC-V does.
- RegionInit.MemregionInit: validity of the resulting order (at least 3) is checked elsewhere in the source and here.
- Hsm.ControlFixesState: which start address a started hart reads is not claimed, and a hart is assumed to be assigned to a domain.
- ColdBoot.EverybodyFinishes: spurious wake-ups before coldboot_done may repeat without bound; errors of later boot stages are not modelled.
- KconfigSymbols.Kconfig.Run: symbols in choices, string, int and hex values, relations with such operands (the source compares their text), ranges, the assignable and str_value caches and the written-to-configuration flag are left out; dependencies, including those on MODULES, are acyclic.
- KconfigSymbols.Kconfig.ExprValue: asks that relations compare bool and tristate symbols, since the text of other symbols is not modelled.
- KconfigSyntax.RoundTrip: works on tokens; the tokeniser, quoting and choices in expressions are left out.
- Zeroing of the rest of a loaded page is not claimed, since the loader copies whole pages from the file.
- Lifecycle.ForkLiveReap: the trace of the run is the one the method records; a run in which another task forks, execs or frees a child is covered call by call by Kernel.Os.Step, not by this result.
- Context switch, trap entry and return, CSR access, fences, console, timers and device code: only their effect on the modelled state, or nothing.
- PageTable_unmap is unused and asserts the opposite of what find_pte returns.
- PMU, FDT, serial, GPIO and I2C code, trap emulation and the QEMU headers would only add plumbing.
