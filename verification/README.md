# Verified model of the Wasabi kernel's core

Wasabi is a small x86-64 kernel. This project models the parts of it that keep state over a whole run and proves, in
Dafny, what every run keeps. Run `dafny verify dfyconfig.toml` here to check all of it.

| file | what it models |
|---|---|
| `Prelude.dfy` | machine words, `Option`, the firmware's memory descriptors |
| `Bits.dfy` | shifts and masks on words as arithmetic; the bit-field accessors of `Volatile` |
| `Heap.dfy` | one request to the first-fit heap: rounding, the fit test, splitting a chunk; what a tiled chunk list is |
| `HeapRuns.dfy` | whole runs of adding regions, allocating and freeing |
| `HeapEffects.dfy` | what each of these does, said in chunks and powers of two |
| `Allocator.dfy` | `FirstFitAllocator` itself: headers linked through memory, proved to carry out the runs of `HeapRuns` |
| `PageTree.dfy` | four-level page tables in memory, the flat translation they stand for, the processor's walk and the flags it sets |
| `TableCount.dfy` | which tables a range of pages needs, which are missing, and what linking them in takes from the heap |
| `TableSupply.dfy` | the pages for tables, allocated from the heap |
| `Paging.dfy` | `create_mapping` and what it calls, proved to update a range of the flat translation |
| `KernelMap.dfy` | `init_paging` and any number of `disable_cache` calls on the live table: the identity map |
| `Trb.dfy`, `CommandRing.dfy` | TRBs; `TrbRing` and `CommandRing::push` |
| `Laps.dfy` | counting round a ring |
| `RingProtocol.dfy` | driver and controller on one producer ring, interleaved store by store |
| `Requests.dfy` | the `request_*` functions on a transfer ring: how many TRBs they leave outstanding |
| `EventRingProtocol.dfy` | controller and driver on the event ring, interleaved access by access |
| `EventRing.dfy` | `EventRing::pop` and `poll`, waiters, removal of stale waiters |
| `Delivery.dfy` | which events reach which future, over whole runs |
| `CommandFlow.dfy` | commands and completions counted: each command's future gets its own completion |
| `Driver.dfy` | both rings and the flow in one machine of single accesses; `send_command` and `poll` on the ring objects |
| `Executor.dfy` | the round-robin executor: conservation and exact fairness |
| `Usb.dfy` | the descriptor iterator and `pick_interface_with_triple` |
| `Graphics.dfy` | `calc_slope_point`, `draw_line`, `fill_rect` |
| `Devices.dfy` | HPET time conversion; sizing a 64-bit BAR through 32-bit halves |

Every stateful part has two layers. A specification on values (`HeapRuns.Next`, `Paging.MapPages`,
`RingProtocol.Next`, `Executor.Turn`, ...) carries the theorems about all runs. Classes in the form of the source
(`FirstFitAllocator`, `PageTables`, `CommandRing`, `EventRing`, `GlobalExecutor`, `Bitmap`, `Bar0`) have methods whose
postconditions say that they compute that specification.

Main results:

- **Heap.** In every run of region adds, allocations and frees the headers tile each region exactly; live payloads are
  aligned, large enough, pairwise disjoint, disjoint from every header, and outside page 0 (`RunInv`, `RunSafe`). Bytes
  are conserved, and the number of successes in a run of any length is bounded by the memory given (`RunConserves`).
  Memory once handed out for a rounded size is never handed out again for that size or more (`NeverServesAgain`).
  A request is refused exactly when no free chunk has room for it, and served from the first that has, as high as it can
  be (`AllocMeaning`); what was freed serves any request it has room for (`FreedServes`).
- **Paging.** `create_mapping` turns the translation into the old one updated on exactly the pages of the range, one leaf
  write per page in order, and changes no other page; an unaligned physical address changes no translation. It runs out
  of memory exactly when the heap has fewer pages than there are tables missing on the paths of the range, and takes
  exactly those; `init_paging` succeeds exactly when the heap has the tables its range needs. All of this holds
  whatever accessed and dirty flags the processor sets in the tables meanwhile. After `init_paging` and any
  interleaving of `disable_cache` calls and flag updates the processor sees the identity map, page 0 excepted. Every
  page of the memory map's conventional and loader ranges is in it (`InitPaging`).
- **Rings.** Under every interleaving of the individual stores of `push` with the controller's fetches, and at most 14
  TRBs outstanding, the controller takes exactly what was pushed, in order and whole, and `push` never fails. The bound
  is tight: with 15 the ring jams for ever (`FifteenJams`). The event ring loses and overwrites nothing although ERDP
  lags one slot behind, and neither side blocks the other for good. In one machine of all single accesses of driver and
  controller on both rings, slot addresses repeat every 15 commands, and still each command's future first gets its own
  completion, in every run, exactly if the command ring does not stand at `port * 2^24` for a port from 1 to 255
  (`Driver.AnswersIff`). At such an address it is false of the code: futures compare only the data word of an event,
  and a port status change carries its port number there (`PortAnswers`).
- **Executor.** Every spawned task is queued, finished or in flight, exactly once; a task at position `k` is polled at
  exactly the `k + 1`-th poll from now, whatever is spawned meanwhile. A task is finished exactly once its own poll was
  ready, and is never queued or polled again (`ReadyFinishes`, `FinishedIff`).
- **Lines and interfaces.** `draw_line` paints exactly the pixels nearest to the true line, one for each step
  (`DrawLine`). `pick_interface_with_triple` picks from the block with the first match, given position by position
  (`PickMeaning`).

A few always-true predicates (`OnPath`, `Named`, `Nth`, `Node`, `Pair`, `Opened`, `Traced`) guard quantifiers: a proof
mentions one to say which instance it needs, and definitions guarded by `Opened` or `Traced` stay closed where they are
only handed on.

Standards followed: Intel SDM Vol. 3A sections 4.5 and 4.8 (paging); xHCI 1.2 sections 4.9.2 to 4.9.4, 6.4.2 and 6.4.4.1
(rings, events and the Link TRB); USB 2.0 section 9.6 (descriptors); PCI Local Bus 3.0 section 6.2.5.1 (BAR sizing).

## Model

| member | source | states |
|---|---|---|
| `Bits.WriteBitsMeaning` | HelloWorld/wasabi/src/volatile.rs:54-67 | a field write succeeds exactly when the value fits the field; the word keeps every bit above and below |
| `Bits.ReadBitsMeaning` | HelloWorld/wasabi/src/volatile.rs:68-71 | a field read is the word divided by the field's weight, modulo its width |
| `Bits.WriteThenRead` | HelloWorld/wasabi/src/volatile.rs:54-71 | reading a field just written returns the value; the bits around it read as before |
| `Heap.RoundUpFails` | HelloWorld/wasabi/src/allocator.rs:18-22 | rounding fails exactly on 0 and above 2^63 |
| `Heap.RoundUpIsLeast` | HelloWorld/wasabi/src/allocator.rs:18-22 | otherwise it gives the least power of two not below the size |
| `Heap.RequestFacts` | HelloWorld/wasabi/src/allocator.rs:57-61 | for any valid layout the rounded size and alignment are multiples of 32 and the sum in the fit test cannot overflow |
| `Heap.PayloadFacts` | HelloWorld/wasabi/src/allocator.rs:106-108 | in a fitting chunk the payload lies above two headers, ends inside the chunk and is aligned |
| `Heap.SplitCovers` | HelloWorld/wasabi/src/allocator.rs:85-132 | the pieces `provide` makes cover exactly the chunk it split, all 32-byte aligned; the payload is aligned as requested |
| `Heap.TiledReplace` | HelloWorld/wasabi/src/allocator.rs:85-132 | replacing a chunk by pieces that cover it keeps the regions tiled |
| `Heap.TiledMember` | HelloWorld/wasabi/src/allocator.rs:85-132 | every chunk of a tiled list is aligned and lies in one region |
| `Heap.TiledApart` | HelloWorld/wasabi/src/allocator.rs:85-132 | no two chunks of a tiled list share a byte |
| `HeapEffects.FitMeaning` | HelloWorld/wasabi/src/allocator.rs:57-61 | a chunk serves a request exactly if it is free and has room for the least power of two that holds the request and 32 bytes, two headers and the alignment; the payload then is the highest aligned address that fits |
| `HeapEffects.AllocMeaning` | HelloWorld/wasabi/src/allocator.rs:85-132 | null is returned exactly for an empty request or when no free chunk has room; otherwise the first that has is cut into its shrunk rest, the allocated chunk at that address and the padding, and nothing else changes |
| `HeapRuns.DescriptorRegionFacts` | HelloWorld/wasabi/src/allocator.rs:201-213 | the region added for a descriptor is page-aligned, avoids page 0 and ends where the descriptor ends |
| `HeapEffects.AddMeaning` | HelloWorld/wasabi/src/allocator.rs:201-225 | a descriptor adds one free chunk from its start, or from 4096 if it starts at 0, to its end, unless that is a page or less; then nothing changes |
| `HeapRuns.AddKeeps` | HelloWorld/wasabi/src/allocator.rs:201-225 | adding a region apart from the others keeps the invariant |
| `HeapRuns.AllocKeeps` | HelloWorld/wasabi/src/allocator.rs:85-132 | any allocation, successful or not, keeps the invariant |
| `HeapRuns.FreeKeeps` | HelloWorld/wasabi/src/allocator.rs:166-171 | freeing a live pointer keeps the invariant |
| `HeapEffects.FreeMeaning` | HelloWorld/wasabi/src/allocator.rs:166-171 | freeing a live pointer marks the chunk 32 bytes below it free, ends its life and changes nothing else |
| `HeapEffects.FreedServes` | HelloWorld/wasabi/src/allocator.rs:166-192 | right after a free, in every run, no request is refused that the freed chunk has room for |
| `HeapRuns.ReleaseOne` | HelloWorld/wasabi/src/allocator.rs:166-171 | clearing the flag at a chunk's address changes that chunk's flag and nothing else |
| `HeapRuns.RunInv` | HelloWorld/wasabi/src/allocator.rs:85-225 | in every reachable state the chunks tile the regions and exactly the chunks behind live pointers are marked used |
| `HeapRuns.RunSafe` | HelloWorld/wasabi/src/allocator.rs:78-132 | in every reachable state every live payload is aligned, large enough, inside one region, outside page 0, and apart from every other payload and every header |
| `HeapRuns.AllocIsFresh` | HelloWorld/wasabi/src/allocator.rs:85-132 | a successful allocation returns a pointer that was not live, inside a chunk that was free |
| `HeapRuns.RunConserves` | HelloWorld/wasabi/src/allocator.rs:85-171 | chunk sizes always sum to the bytes given; successes plus regions, 32 bytes each, never exceed them, whatever is freed |
| `HeapRuns.NeverServesAgain` | HelloWorld/wasabi/src/allocator.rs:57-61 | memory once live for a rounded size is apart from every later allocation of that rounded size or more, in every run |
| `HeapRuns.RunSameSize` | HelloWorld/wasabi/src/allocator.rs:85-171 | a run that allocates one rounded size succeeds at most as often as such chunks fit side by side |
| `Allocator.FirstFitAllocator.constructor` | HelloWorld/wasabi/src/allocator.rs:155-158 | the empty heap |
| `Allocator.FirstFitAllocator.NewFromAddr` | HelloWorld/wasabi/src/allocator.rs:68-77 | writes a blank header and nothing else |
| `Allocator.FirstFitAllocator.Provide` | HelloWorld/wasabi/src/allocator.rs:85-132 | serves exactly from a free chunk with room, at the highest aligned address; the memory then links the split list; the source's assertion and all address arithmetic hold |
| `Allocator.FirstFitAllocator.Carve` | HelloWorld/wasabi/src/allocator.rs:105-129 | the header writes link the pieces and touch nothing outside the chunk |
| `Allocator.FirstFitAllocator.MakeAllocatedHeader` | HelloWorld/wasabi/src/allocator.rs:107-112 | the header of the allocated chunk, which takes over the link |
| `Allocator.FirstFitAllocator.MakePaddingHeader` | HelloWorld/wasabi/src/allocator.rs:113-125 | the header of the padding, linked in behind the allocated chunk |
| `Allocator.FirstFitAllocator.ShrinkSelf` | HelloWorld/wasabi/src/allocator.rs:126-129 | the shrunk chunk links to the allocated one |
| `Allocator.FirstFitAllocator.AllocWithOptions` | HelloWorld/wasabi/src/allocator.rs:175-192 | the walk over the links is one `Alloc` step, with the whole effect written out: null exactly when no free chunk has room, otherwise the payload cut from the first that has |
| `Allocator.FirstFitAllocator.Dealloc` | HelloWorld/wasabi/src/allocator.rs:166-171 | the memory is the old one with the flag of the header 32 bytes below the pointer cleared; that chunk is free, the pointer no longer live, all else unchanged |
| `Allocator.FirstFitAllocator.AddFreeFromDescriptor` | HelloWorld/wasabi/src/allocator.rs:201-225 | a free chunk over exactly the descriptor's range at the head of the list, page 0 cut off; nothing if a page or less is left |
| `Allocator.FirstFitAllocator.InitWithMmap` | HelloWorld/wasabi/src/allocator.rs:193-200 | the heap after the memory map is a legal run whose regions are exactly those of the conventional ranges, with nothing live |
| `Allocator.LinkedReplace` | HelloWorld/wasabi/src/allocator.rs:105-129 | writing the pieces' headers inside one chunk leaves the whole list linked |
| `Allocator.FreeLinked` | HelloWorld/wasabi/src/allocator.rs:78-81 | 32 bytes below a live pointer is that chunk's own header; clearing its flag is the `Free` step |
| `PageTree.TablePlace` | HelloWorld/wasabi/src/x86.rs:154-179 | the table on the path of a page is the one at that page's prefix |
| `PageTree.SetLeafFlat` | HelloWorld/wasabi/src/x86.rs:116-123 | writing a leaf entry changes the translation of that page and of no other |
| `PageTree.LinkFlat` | HelloWorld/wasabi/src/x86.rs:124-132 | linking in an empty table changes no translation |
| `PageTree.LinkEffect` | HelloWorld/wasabi/src/x86.rs:124-139 | it keeps the tree well-formed and unshared, keeps every table already on a path, and puts the new one on the path |
| `PageTree.WalkIsLeaf` | HelloWorld/wasabi/src/x86.rs:78-115 | the processor's four-level walk finds what the leaf entry says: no large page, and the leaf's own rights |
| `PageTree.MarkEffect` | HelloWorld/wasabi/src/x86.rs:70-115 | accessed and dirty flags the processor sets in any entry keep the tree well-formed, every path and the translation |
| `TableCount.NeededIsCount` | HelloWorld/wasabi/src/x86.rs:124-139 | the tables on the paths of a range number, level by level, from the first page's to the last page's |
| `TableCount.AbsentBound` | HelloWorld/wasabi/src/x86.rs:124-139 | no more tables are missing than the range needs |
| `TableCount.BareAbsent` | HelloWorld/wasabi/src/x86.rs:193-199 | below a new root all of them are missing |
| `TableCount.LinkOnly` | HelloWorld/wasabi/src/x86.rs:124-132 | a linked table appears on the paths below its entry and on no others |
| `TableCount.GrownLink` | HelloWorld/wasabi/src/x86.rs:124-132 | linking takes the first free page, once, for a table that was missing |
| `TableCount.AllLinked` | HelloWorld/wasabi/src/x86.rs:200-241 | once every page of the range is reached, exactly the missing tables have been taken from the heap |
| `TableCount.NotAllLinked` | HelloWorld/wasabi/src/x86.rs:200-241 | a page not reached with no free page left means fewer free pages than missing tables |
| `TableSupply.LivePagesSupply` | HelloWorld/wasabi/src/allocator.rs:159-172 | in every run of the heap, live pages are aligned, distinct, in no header and in no other live payload: a supply for the tables |
| `TableSupply.HeapSupplies` | HelloWorld/wasabi/src/x86.rs:128-129 | after any run, successive successful page allocations give a root and a supply of tables |
| `Paging.CalcIndexIs` | HelloWorld/wasabi/src/x86.rs:171-179 | shift and mask give the index of the address's page at every level |
| `Paging.CountIsExact` | HelloWorld/wasabi/src/x86.rs:223-238 | the number of pages of a call is where the address first reaches the end, or the 48-bit window ends |
| `Paging.IndexAt` | HelloWorld/wasabi/src/x86.rs:210-219 | `calc_index` on the running address is the index of the page in turn |
| `Paging.AfterEntry` | HelloWorld/wasabi/src/x86.rs:223-238 | the break test of each loop fires exactly when the range or the table is used up |
| `Paging.TableMut` | HelloWorld/wasabi/src/x86.rs:109-115 | the table a present entry points to |
| `Paging.PageTables.constructor` | HelloWorld/wasabi/src/x86.rs:193-199 | a zeroed root table maps nothing and has no other table |
| `Paging.PageTables.SetPage` | HelloWorld/wasabi/src/x86.rs:116-123 | refuses exactly unaligned addresses; otherwise writes the address plus the bits 0, 3 or 27 of the attribute to one entry, which updates one page of the translation |
| `Paging.PageTables.Populate` | HelloWorld/wasabi/src/x86.rs:124-132 | refuses exactly a present entry; otherwise takes one free page, if there is one, zeroes it, writes its address plus 3 to the entry, puts the table on the path and keeps the translation |
| `Paging.PageTables.EnsurePopulated` | HelloWorld/wasabi/src/x86.rs:133-139 | afterwards the next table is on the path, the translation unchanged, one free page taken exactly if it was missing; fails exactly if it was missing and no page is free |
| `Paging.PageTables.ProcessorMarks` | HelloWorld/wasabi/src/x86.rs:70-115 | a flag update in a present entry keeps everything the loops rely on |
| `Paging.PageTables.Await` | HelloWorld/wasabi/src/x86.rs:208-238 | any flag updates between two looks at an entry leave the loops' knowledge as it was |
| `Paging.PageTables.FillTable` | HelloWorld/wasabi/src/x86.rs:208-238 | the loop at one level maps consecutive pages until the range or the table ends, linking tables only on their paths, or stops where a table is missing and no page is free |
| `Paging.PageTables.FillStep` | HelloWorld/wasabi/src/x86.rs:208-238 | one iteration and what its break test then tells |
| `Paging.PageTables.FillBelow` | HelloWorld/wasabi/src/x86.rs:209-217 | above the leaves an iteration runs the loop over the next table |
| `Paging.PageTables.FillLeaf` | HelloWorld/wasabi/src/x86.rs:219-223 | the innermost body maps exactly the next page |
| `Paging.PageTables.CreateMapping` | HelloWorld/wasabi/src/x86.rs:200-241 | terminates; the translation is the old one updated on exactly the pages of the range, one leaf write each in order; it runs out of memory exactly when fewer pages are free than tables missing, never with the tables the range needs, and takes exactly the missing ones; otherwise it is refused exactly when `phys` is unaligned, and then no translation changes |
| `Paging.EnoughSupply` | HelloWorld/wasabi/src/x86.rs:200-241 | a call never misses more than the tables its range needs |
| `KernelMap.EndOfMemory` | HelloWorld/wasabi/src/init.rs:37-50 | 4 GiB or, if higher, the largest end of a conventional or loader range |
| `KernelMap.MapKernel` | HelloWorld/wasabi/src/init.rs:51-56 | the two mappings that make the initial address space; succeeds exactly if the missing tables can be supplied, the second needs none |
| `KernelMap.InitPaging` | HelloWorld/wasabi/src/init.rs:35-58 | succeeds exactly when the heap can supply the tables its range needs; then every page of a conventional or loader range, and every other page below the end, is mapped to itself, writable and cached, page 0 and the rest are not mapped |
| `KernelMap.DisableCache` | HelloWorld/wasabi/src/x86.rs:936-946 | maps one I/O range; runs out of memory exactly when fewer pages are free than tables missing; otherwise refused exactly when unaligned |
| `KernelMap.NothingMissing` | HelloWorld/wasabi/src/x86.rs:936-946 | on a range that is mapped already `disable_cache` cannot run out of memory |
| `KernelMap.DisableCacheLive` | HelloWorld/wasabi/src/x86.rs:936-946 | a successful call is a step of the live table, whatever flags were set in it |
| `KernelMap.CoveredMeaning` | HelloWorld/wasabi/src/x86.rs:200-241 | an I/O range covers its first page and every page of the window that starts before its end |
| `KernelMap.DisableCacheKeeps` | HelloWorld/wasabi/src/pci.rs:234-243 | an I/O range above page 0 keeps the identity map and turns caching off on exactly its pages |
| `KernelMap.AlwaysIdentity` | HelloWorld/wasabi/src/init.rs:35-58 | after `init_paging` and any such calls every mapped page maps to itself, writable, page 0 is unmapped, and a page is mapped exactly if below the end of memory or in an I/O range |
| `KernelMap.FlagsDoNotMatter` | HelloWorld/wasabi/src/x86.rs:936-946 | in every interleaving of `disable_cache` calls and flag updates the tree stays well-formed and the translation is that of the calls alone |
| `KernelMap.ProcessorSeesIdentity` | HelloWorld/wasabi/src/init.rs:35-58 | in every such interleaving the processor's walk gives the identity on exactly these pages and faults elsewhere |
| `Trb.CycleLaws` | HelloWorld/wasabi/src/xhci.rs:1045-1062 | setting the cycle bit sets it, keeps type and toggle, and overrides earlier settings |
| `Trb.ReadFields` | HelloWorld/wasabi/src/xhci.rs:1054-1062 | cycle, type and slot id are read from their bits |
| `Trb.WriteCycle` | HelloWorld/wasabi/src/xhci.rs:1045-1047 | `set_cycle_state` changes bit 0 only and its `unwrap` cannot fail |
| `Trb.WriteLink` | HelloWorld/wasabi/src/xhci.rs:1035-1050 | the Link TRB's control word |
| `Trb.LinkFields` | HelloWorld/wasabi/src/xhci.rs:1035-1050 | a controller reads in it type 6, toggle set, cycle clear and the address of the ring |
| `CommandRing.TrbRing.Write` | HelloWorld/wasabi/src/xhci.rs:954-963 | writes one slot, or refuses an index out of range |
| `CommandRing.TrbRing.AdvanceIndex` | HelloWorld/wasabi/src/xhci.rs:986-993 | hands the current slot over and moves on; fails exactly if the cycle bit would not change |
| `CommandRing.TrbRing.AdvanceIndexNotoggle` | HelloWorld/wasabi/src/xhci.rs:970-976 | moves on exactly if the current slot carries our cycle |
| `CommandRing.CommandRing.constructor` | HelloWorld/wasabi/src/xhci.rs:1155-1168 | zeroed slots with the Link TRB at the end |
| `CommandRing.CommandRing.PushTrb` | HelloWorld/wasabi/src/xhci.rs:1136-1154 | computes `Push`, errors included |
| `RingProtocol.StepKeeps` | HelloWorld/wasabi/src/xhci.rs:1136-1154 | each store of `push` and each fetch keeps the protocol invariant |
| `RingProtocol.AtSlot` | HelloWorld/wasabi/src/xhci.rs:986-993 | at an ordinary slot the controller sees its cycle bit exactly when a TRB is outstanding, and then the oldest, whole |
| `RingProtocol.AtLink` | HelloWorld/wasabi/src/xhci.rs:1148-1152 | at the Link TRB it may go on unless the driver is just about to hand the Link over |
| `RingProtocol.RunInv` | HelloWorld/wasabi/src/xhci.rs:1136-1154 | in every interleaving with at most 14 outstanding the consumed TRBs are a prefix of the pushed ones, each whole, and `push` never fails |
| `RingProtocol.Drains` | HelloWorld/wasabi/src/xhci.rs:1136-1154 | between pushes, enough fetches consume everything pushed |
| `RingProtocol.PushIsSteps` | HelloWorld/wasabi/src/xhci.rs:1136-1154 | the steps run without interruption are `push`, errors included |
| `RingProtocol.PushLands` | HelloWorld/wasabi/src/xhci.rs:1136-1169 | push number n goes to slot n mod 15 with the lap's cycle bit and never fails, with no controller at all |
| `RingProtocol.RingAfter` | HelloWorld/wasabi/src/xhci.rs:1128-1169 | after n pushes: slots before the index carry the opposite cycle, the rest through the Link carry ours, slot 15 is the Link TRB |
| `RingProtocol.FifteenJams` | HelloWorld/wasabi/src/xhci.rs:1139-1141 | with 15 outstanding the controller can be left in front of a Link TRB it never follows |
| `EventRingProtocol.StepKeeps` | HelloWorld/wasabi/src/xhci.rs:856-872 | each access of `pop` and each store of the controller keeps the invariant |
| `EventRingProtocol.AtSlot` | HelloWorld/wasabi/src/xhci.rs:908-910 | `has_next_event` holds exactly when an event is unread, and the slot then holds the oldest, whole |
| `EventRingProtocol.RunInv` | HelloWorld/wasabi/src/xhci.rs:856-872 | in every interleaving the popped events are the posted ones in order, no unread one is overwritten, and the inner check never fails |
| `EventRingProtocol.PopIsOldest` | HelloWorld/wasabi/src/xhci.rs:856-872 | `pop` returns nothing exactly when nothing is pending, otherwise the oldest pending event |
| `EventRingProtocol.PopIsSteps` | HelloWorld/wasabi/src/xhci.rs:856-872 | the steps run without interruption are `pop` |
| `EventRingProtocol.MayPost` | HelloWorld/wasabi/src/xhci.rs:864-867 | the controller may post exactly when fewer than fifteen events lie behind the one ERDP names |
| `EventRingProtocol.FreeWhenRead` | HelloWorld/wasabi/src/xhci.rs:864-867 | with nothing unread the controller is never blocked, although ERDP lags |
| `EventRingProtocol.PopMakesRoom` | HelloWorld/wasabi/src/xhci.rs:864-867 | from a full ring one pop makes room, except for the very first one ever, after which it takes a second |
| `EventRingProtocol.PopsDrain` | HelloWorld/wasabi/src/xhci.rs:856-872 | as many pops as unread events read them all and free the controller |
| `EventRing.EventWaitInfo.MatchesEvent` | HelloWorld/wasabi/src/xhci.rs:1184-1201 | true exactly when every given field equals the event's: bits 10 to 15, bits 24 to 31 of the control word, the data word |
| `EventRing.EventWaitInfo.Resolve` | HelloWorld/wasabi/src/xhci.rs:1202-1207 | appends the event to the waiter's queue |
| `EventRing.EventWaitInfo.PollFuture` | HelloWorld/wasabi/src/xhci.rs:1371-1381 | takes the oldest delivered event, or is pending |
| `EventRing.EventRing.constructor` | HelloWorld/wasabi/src/xhci.rs:836-846 | cycle state 1, ERDP at the first slot, no waiters |
| `EventRing.EventRing.PopEvent` | HelloWorld/wasabi/src/xhci.rs:856-872 | computes `Pop`; ERDP names the slot just read and keeps its low bits |
| `EventRing.EventRing.Dispatch` | HelloWorld/wasabi/src/xhci.rs:875-884 | every held waiter that matches gets the event at the end of its queue, no other does |
| `EventRing.EventRing.StalePositions` | HelloWorld/wasabi/src/xhci.rs:889-901 | the positions of waiters nobody holds, highest first |
| `EventRing.EventRing.CleanUp` | HelloWorld/wasabi/src/xhci.rs:888-904 | leaves exactly the held waiters, in order |
| `EventRing.RemovingStaleKeepsHeld` | HelloWorld/wasabi/src/xhci.rs:888-904 | removing positions one by one from the highest down keeps exactly the held elements, although each removal shifts the rest |
| `EventRing.RemovePositions` | HelloWorld/wasabi/src/xhci.rs:902-904 | the removal loop |
| `EventRing.EventRing.Poll` | HelloWorld/wasabi/src/xhci.rs:873-907 | one event at most is popped, delivered to exactly the held waiters that match, and the held waiters stay |
| `EventRing.EventRing.RegisterWaiter` | HelloWorld/wasabi/src/xhci.rs:911-914 | the waiter goes to the end of the list |
| `Delivery.RunExact` | HelloWorld/wasabi/src/xhci.rs:873-914 | in every run, what a held waiter has taken and queued is what was popped since its registration and matches, in ring order |
| `Delivery.PollRing` | HelloWorld/wasabi/src/xhci.rs:873-907 | `EventRing::poll` on the real objects is one event step of such a run |
| `Delivery.NewFuture` | HelloWorld/wasabi/src/xhci.rs:1347-1359 | `EventFuture::new` is a registration step |
| `Delivery.PollFuture` | HelloWorld/wasabi/src/xhci.rs:1371-1381 | `EventFuture::poll` is a take step |
| `CommandFlow.PortNamesSlot` | HelloWorld/wasabi/src/xhci.rs:1184-1201 | a port status change names a slot of the command ring exactly if the ring stands at the port number times 2^24 |
| `CommandFlow.FirstIsOwn` | HelloWorld/wasabi/src/xhci.rs:653-657 | a waiter registered within 14 commands first selects its own command's completion although addresses repeat |
| `CommandFlow.RunInv` | HelloWorld/wasabi/src/xhci.rs:653-657 | in every run every waiter is registered before its command's completion is popped |
| `CommandFlow.AnswersMatch` | HelloWorld/wasabi/src/xhci.rs:653-657 | unless the ring stands at a port's address, in every run the future of command n has nothing until completion n is popped, and that comes first |
| `CommandFlow.PortAnswers` | HelloWorld/wasabi/src/xhci.rs:1360-1369 | if it does, a port status change is delivered as the first command's answer |
| `CommandFlow.AnswersIff` | HelloWorld/wasabi/src/xhci.rs:1184-1201 | commands get their own answers in every run of the flow exactly if the ring stands clear of the ports |
| `Driver.StartAgrees` | HelloWorld/wasabi/src/xhci.rs:643-646 | new rings and an empty flow agree |
| `Driver.RoomToPush` | HelloWorld/wasabi/src/xhci.rs:653-657 | fewer than 14 commands without a popped completion means the ring protocol's bound holds |
| `Driver.FetchAgrees` | HelloWorld/wasabi/src/xhci.rs:1136-1154 | fetching keeps the agreement, and the command fetched next stands at the address its waiter has |
| `Driver.PublishAgrees` | HelloWorld/wasabi/src/xhci.rs:1146-1152 | the store that hands a command over is the flow's `Push` |
| `Driver.FinishAgrees` | HelloWorld/wasabi/src/xhci.rs:856-872 | the last access of `pop` is the flow's `Poll` |
| `Driver.PostedAgrees` | HelloWorld/wasabi/src/xhci.rs:908-910 | the last word of an event of any kind is the flow's `Post` |
| `Driver.StepAgrees` | HelloWorld/wasabi/src/xhci.rs:653-657 | every single access of either side, a registration, a take and a drop keep the agreement |
| `Driver.RunAgrees` | HelloWorld/wasabi/src/xhci.rs:653-657 | in every interleaving of the single accesses both ring protocols and the flow agree |
| `Driver.RunInOrder` | HelloWorld/wasabi/src/xhci.rs:1136-1154 | so no push and no pop fails, commands are taken as pushed and events popped as posted |
| `Driver.RunAnswers` | HelloWorld/wasabi/src/xhci.rs:653-657 | and unless the ring stands at a port's address each command first gets its own completion |
| `Driver.PortReaches` | HelloWorld/wasabi/src/xhci.rs:226-241 | if it does, a run of the machine delivers a port status change to the first command |
| `Driver.AnswersIff` | HelloWorld/wasabi/src/xhci.rs:1184-1201 | in every reachable state of the machine commands got their own answers exactly if the ring stands clear of the ports |
| `Driver.SendReaches` | HelloWorld/wasabi/src/xhci.rs:653-657 | the stores of a push and the registration are a run of the machine; the slot is the one the ring gives |
| `Driver.PollReaches` | HelloWorld/wasabi/src/xhci.rs:873-907 | a pop and the delivery are a run of the machine |
| `Driver.NewRings` | HelloWorld/wasabi/src/xhci.rs:1155-1168 | newly made ring objects show the start of the machine |
| `Driver.SendCommand` | HelloWorld/wasabi/src/xhci.rs:653-657 | on ring objects that show a reachable state: cannot fail, and leads to the state after its steps |
| `Driver.PollEvents` | HelloWorld/wasabi/src/xhci.rs:873-907 | `EventRing::poll` on the objects leads to the state after a pop and the delivery |
| `Requests.BeginAllowed` | HelloWorld/wasabi/src/xhci.rs:675-701 | when a request pushes, at most three TRBs are outstanding, so the ring's bound holds |
| `Requests.StepKeeps` | HelloWorld/wasabi/src/xhci.rs:675-773 | starting a request, each store of its pushes and each fetch keep the invariant |
| `Requests.RequestsInOrder` | HelloWorld/wasabi/src/xhci.rs:675-825 | in every run of requests at most four TRBs are outstanding, no push fails and the controller takes what was pushed |
| `Executor.TurnsConserve` | HelloWorld/wasabi/src/executor.rs:95-114 | in every run each spawned task is queued or finished, exactly once |
| `Executor.InFlight` | HelloWorld/wasabi/src/executor.rs:98-112 | while a task is polled, the one in flight makes up the count |
| `Executor.SpawnConserves` | HelloWorld/wasabi/src/executor.rs:166-169 | so does spawning from outside a task |
| `Executor.MovesUp` | HelloWorld/wasabi/src/executor.rs:95-114 | each turn moves a waiting task up by exactly one, whatever is spawned or finished |
| `Executor.PolledInTurn` | HelloWorld/wasabi/src/executor.rs:95-114 | a task at position k is polled at exactly the k+1-th poll from now |
| `Executor.PolledAgain` | HelloWorld/wasabi/src/executor.rs:106-111 | a pending task is polled again after every task then queued, those it spawned included, was polled once |
| `Executor.ReadyFinishes` | HelloWorld/wasabi/src/executor.rs:101-105 | a task ready when polled is at once the last of the finished ones, and no run queues or polls it again |
| `Executor.FinishedIff` | HelloWorld/wasabi/src/executor.rs:95-114 | in every run a task is finished exactly if its own poll was ready in some turn, or it was before |
| `Executor.FinishedStays` | HelloWorld/wasabi/src/executor.rs:102-105 | a finished task is never polled again |
| `Executor.GlobalExecutor.SpawnGlobal` | HelloWorld/wasabi/src/executor.rs:166-169 | creates executor and queue if need be and enqueues at the back |
| `Executor.GlobalExecutor.PopFront` | HelloWorld/wasabi/src/executor.rs:86-98 | the front task, or none |
| `Executor.GlobalExecutor.RunTurn` | HelloWorld/wasabi/src/executor.rs:97-113 | computes `Turn`: polls the front task; what it spawned goes to the back, and behind that the task itself if pending; a ready one is dropped |
| `Executor.GlobalExecutor.Run` | HelloWorld/wasabi/src/executor.rs:95-114 | any number of turns |
| `Executor.Yield.Poll` | HelloWorld/wasabi/src/executor.rs:122-135 | pending the first time, ready from then on |
| `Usb.DescriptorIterator.Next` | HelloWorld/wasabi/src/usb.rs:96-124 | yields the descriptor at the position and moves by its length byte, or ends |
| `Usb.CollectAll` | HelloWorld/wasabi/src/usb.rs:96-124 | collecting a buffer on which the iteration ends |
| `Usb.RoundTrip` | HelloWorld/wasabi/src/usb.rs:96-124 | iterating over the concatenated encodings of any well-formed list yields exactly the list and stops |
| `Usb.DecodeEncoded` | HelloWorld/wasabi/src/slice.rs:20-28 | decoding an encoded descriptor, whatever follows it, gives it back |
| `Usb.ItemFields` | HelloWorld/wasabi/src/usb.rs:98-123 | what `next` reads at the type bytes 2, 4, 5 and others, byte by byte, and when it ends |
| `Usb.ItemIffRoom` | HelloWorld/wasabi/src/usb.rs:98-123 | `next` yields an item exactly where there is room for one of its type, and moves by the length byte |
| `Usb.HangsOnZeroLength` | HelloWorld/wasabi/src/usb.rs:100-121 | the iteration never ends exactly when the length bytes lead to a descriptor with length byte zero |
| `Usb.HangsForever` | HelloWorld/wasabi/src/usb.rs:100-121 | then, from some call on, every call of `next` yields the same descriptor |
| `Usb.PanicsOnLoneByte` | HelloWorld/wasabi/src/usb.rs:103-105 | it panics exactly when the length bytes lead to the buffer's last byte |
| `Usb.SmallestFailures` | HelloWorld/wasabi/src/usb.rs:98-123 | one buffer that hangs and one that panics |
| `Usb.PickInterfaceWithTriple` | HelloWorld/wasabi/src/usb.rs:310-344 | the loop computes the block specification; what it picks has the class, subclass and protocol asked for |
| `Usb.PickMeaning` | HelloWorld/wasabi/src/usb.rs:310-344 | something is picked exactly when a Config precedes the first match; it is the nearest such Config, the last match before the next Config and all Endpoints of that block, in order |
| `Graphics.SlopePointIs` | HelloWorld/wasabi/src/graphics.rs:65-75 | for the arguments of `draw_line` the point exists |
| `Graphics.SlopeNearest` | HelloWorld/wasabi/src/graphics.rs:65-75 | it is the integer nearest to db*ia/da, halves up, within 0..db |
| `Graphics.SlopeEnds` | HelloWorld/wasabi/src/graphics.rs:65-75 | it is 0 at the start and db at the end |
| `Graphics.SlopeStep` | HelloWorld/wasabi/src/graphics.rs:65-75 | it moves by 0 or 1 per step |
| `Graphics.SlopeFits` | HelloWorld/wasabi/src/graphics.rs:65-75 | the dividend stays below the limit at every step of a line exactly when it does at the last one |
| `Graphics.SlopeFitsSmall` | HelloWorld/wasabi/src/graphics.rs:65-75 | below 2^31 pixels to a side it never overflows a signed 64-bit word |
| `Graphics.LineIsNearest` | HelloWorld/wasabi/src/graphics.rs:65-101 | the pixel of a step is exactly the one that many steps along the longer side, on the shorter nearest to the true line, the farther of two equally near |
| `Graphics.LineInBox` | HelloWorld/wasabi/src/graphics.rs:77-101 | the line starts at one end, would end at the other and stays in their bounding box |
| `Graphics.LineConnected` | HelloWorld/wasabi/src/graphics.rs:77-101 | consecutive points differ and touch, corners included |
| `Graphics.Bitmap.DrawPoint` | HelloWorld/wasabi/src/graphics.rs:10-37 | paints the pixel at `y * pixelsPerLine + x`, or fails exactly out of range |
| `Graphics.Bitmap.DrawLine` | HelloWorld/wasabi/src/graphics.rs:77-101 | succeeds exactly for end points in range and paints exactly the pixel nearest to the true line for each step along the longer side, the last left out |
| `Graphics.Bitmap.PaintedIsOnPath` | HelloWorld/wasabi/src/graphics.rs:10-21 | a pixel on screen is painted exactly when it is the nearest for some step |
| `Graphics.Bitmap.FillRect` | HelloWorld/wasabi/src/graphics.rs:38-63 | succeeds exactly when both corners are in range and paints exactly the words whose column and row lie in the rectangle |
| `Graphics.Bitmap.PaintedIsInRect` | HelloWorld/wasabi/src/graphics.rs:10-21 | a pixel of a line stands in its own column and row, so it is painted exactly when it lies in the rectangle |
| `Hpet.TimestampExact` | HelloWorld/wasabi/src/hpet.rs:89-90 | the cut to 64 bits loses nothing exactly while the nanoseconds fit |
| `Hpet.ClockMonotone` | HelloWorld/wasabi/src/hpet.rs:87-94 | up to then the clock never runs backwards |
| `Hpet.OneTick` | HelloWorld/wasabi/src/hpet.rs:87-94 | one tick adds at most a second |
| `Hpet.RunsBack` | HelloWorld/wasabi/src/hpet.rs:87-94 | at the first count whose nanoseconds do not fit, it shows less than a tick before |
| `Hpet.MonotoneIff` | HelloWorld/wasabi/src/hpet.rs:87-94 | up to a count the clock never runs backwards exactly if the nanoseconds of that count fit 64 bits |
| `Hpet.FrequencyAtLeast` | HelloWorld/wasabi/src/hpet.rs:43-46 | every period a device can report gives at least 232830 ticks a second |
| `Hpet.ClockWraps` | HelloWorld/wasabi/src/hpet.rs:87-94 | a device and two counts at which it runs backwards |
| `Hpet.ClockAccurate` | HelloWorld/wasabi/src/hpet.rs:43-46 | it shows at least the true time rounded down and at most the true time times 1 + 1/f |
| `Pci.OnesReadBack` | HelloWorld/wasabi/src/pci.rs:204-205 | all ones written to the halves read back as the size mask and the flags |
| `Pci.Bar0.ReadRegister` | HelloWorld/wasabi/src/pci.rs:183-187 | the 64-bit value of the two halves |
| `Pci.Bar0.WriteRegister` | HelloWorld/wasabi/src/pci.rs:188-199 | each half holds what the device lets it hold |
| `Pci.Bar0.TryBar0Mem64` | HelloWorld/wasabi/src/pci.rs:200-211 | for a 64-bit memory BAR of 2^k bytes returns its base and 2^k, otherwise an error; the registers end as they began |

## Left out

- `Allocator.FirstFitAllocator.Carve`: memory is a map from address to header record; the bytes of payloads are not modelled, their disjointness from headers is proved instead (`HeapRuns.RunSafe`).
- `Paging.PageTables.CreateMapping`: its four nested loops are one loop method called level by level; the sum of `phys` and the running address must not overflow, where the source would panic; running out of heap, where the source aborts, is the outcome `OutOfMemory` with the pages mapped so far; flag updates by the processor fall between two looks at an entry, and the heap's pages are a sequence of free aligned addresses.
- `KernelMap.DisableCache`: the end of the range and the sum of twice its start and its length must not overflow, where the source would panic.
- `RingProtocol.StepKeeps`: the controller fetches the 16 bytes of a TRB in one access, and may fetch at any time; the doorbell only ever makes it fetch sooner. That at most 14 TRBs are outstanding is an assumption on callers, because `push` reads only bits the driver wrote.
- `CommandFlow.AnswersMatch`: transfer events are assumed to point outside the command ring, since transfer rings are other allocations; device notification events, which the driver never enables, are not modelled.
- `EventRing.EventRing.Poll`: a `Weak` reference is the flag `held`; logging of unhandled events is not modelled.
- `Executor.GlobalExecutor.Run`: the endless loop is any finite number of turns; what a poll does is an arbitrary outcome per turn.
- `Usb.DescriptorIterator.Next`: must not be called on a lone last byte, where the source panics; when that is reached is proved exactly (`Usb.PanicsOnLoneByte`).
- `Graphics.Bitmap.DrawLine`: coordinates are unbounded integers; when the 64-bit product in `calc_slope_point` fits is proved apart (`Graphics.SlopeFits`), what the source does when it does not is not modelled.
- Inline assembly, descriptor tables, interrupt entry: hardware effects with no algorithm; CR3 is a reference to the table.
- Serial port, printing, fonts and text: input and output.
- UEFI and ACPI structures: firmware layouts; the memory map is a sequence of page-aligned disjoint descriptors.
- `mutex.rs`, `mmio.rs`, `pin.rs`: thin wrappers; a locked section is one step.
- Port reset, controller start, `TimeoutFuture` and `block_on`: busy waits whose progress depends on the device or clock.
- The fields of the TRBs that the `request_*` functions build, device contexts and HPET register setup: field packing only.
- Bus/device/function packing and key-code tables: small finite domains.
- The Setup TRB's direction test, the shift in `set_port_speed`, `extract_bits` at widths of 64 and up, and the end of the ECAM range: their encodings appear to depart from their intent and are not specified as correct.
