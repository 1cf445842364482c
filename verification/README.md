# A verified model of a small x86-64 kernel's memory, scheduling, formatting and boot-file code

The project models the stateful core of the kernel and proves, for every input, every reachable state or every run,
what that code is for. Each source file keeps its own form: arrays, fields and loops that the C code updates in place
are arrays, fields and loops here, and each such method is proved against a plain value-level description about which
the theorems are stated.

* **Buddy page allocator** (`mm/buddy.c`). `Arith` and `Zones` describe the allocator as eleven lists of block heads
  and a map of live blocks; `ZoneTheorems` proves what every run keeps. `Pages` ties a zone to the page array with its
  intrusive links, `Buddy` is the code on arrays, with the left buddy of a merge unlinked as meant. `BuddyAsWritten`
  treats the left merge exactly as the code has it, `BuddyRuns` whole runs of it, `BuddyInit` and `BuddyMark` the
  start-up grouping and marking.
* **Page tables** (`arch/x86/vmm.c`). `PageTables` is a forest of 512-entry tables with the four-level walk of
  section 4.5 of the Intel SDM, Volume 3A; `Mapping` says what adding tables and entries does to every translation of
  every root; `VmmSteps` and `Vmm` are the mapping code, taking its tables from the boot allocator until
  `vmm_use_alloc_pages` and from the buddy allocator afterwards; `VmmSearch` is the search for a mapping; `Teardown`,
  `Spaces` and `VmmUser` are the life of a user address space. `Rounding` and `Ranges` hold the page arithmetic, as
  meant and as 64-bit words have it.
* **E820 sanitiser** (`arch/x86/e820.c`): `E820Types`, `E820Spec`, `E820Sweep`, `E820`.
* **Boot bump allocator** (`arch/x86/bootmem.c`): `Bootmem`, and `BootMap` for memory that is handed out mapped.
* **Virtual-time scheduler** (`sched/sched.c`): `Scheduler`.
* **printk** (`lib/printk.c`): `PrintkText` (the text of a number or character), `PrintkFormat` (formats and what they
  print) and `Printk` (the interpreter and its buffer).
* **FAT32 reader** (`boot/fat.c`): `FatDisk` (what the disk says), `Fat` (the reader with its cache) and `FatImage` (a
  writer of volumes, directories and files, against which the reader is proved).

`Words` holds word sizes and the byte type.

Main results:

1. Allocation is complete: `alloc_pages(k)` fails exactly when no aligned run of 2^k free pages exists, in every state
   reached by any sequence of allocations and frees (left buddy unlinked as meant); blocks tile the managed pages,
   nothing leaks, live blocks are disjoint, the lists are exactly the free heads, and the panics are not reached. With
   the frees as written the same holds of every run in which no free merges left, and the first one that does ends it.
2. Frees as written compose at the level of the marks: after any sequence of them, whatever has become of the lists,
   state and order of every page again describe an aligned, fully coalesced tiling whose free pages are exactly the old
   ones and the blocks freed.
3. An allocation followed by the free of its result restores every free list, order included. This is proved of the
   code as written, since such a free never merges left.
4. `vmm_map` refines an update of a plain address map for every root at once; which pages get mapped is stated
   exactly; returned and newly mapped bytes add up to the size; other address spaces do not notice. Addresses are 64-bit
   words throughout, and it is stated exactly for which ranges their sums and roundings wrap around.
5. A user address space that is created, given blocks and destroyed leaves exactly the free pages and live blocks there
   were, and every other address space with its translations; every table is given back once. This is proved with
   `free_pages` as written, of the marks, and with the left buddy unlinked as meant, of marks and lists. Blocks asked
   for at page-aligned addresses that do not meet are never mapped in part only, so that nothing leaks.
6. The sanitised memory map is the unique canonical form of the input, or its first 256 entries.
7. Scheduling is proportionally fair, for the priorities the tasks were created with, and starvation-free with an
   explicit bound; starvation is characterised exactly. A task is first entered as it was created and started.
8. The boot allocator hands out exactly the lowest whole RAM pages left, above the kernel and disjoint, and nothing it
   or the kernel owns is ever handed out by the buddy allocator (left buddy unlinked as meant).
9. Memory from the boot allocator that is mapped from an address on (`bootmem_alloc_mapped`): it is stated exactly when
   nothing is done, when every byte of the range translates to the stretches handed out, in order, and when the call
   ends in a panic. The tables taken meanwhile are accounted for, and none of them is in memory that the buddy
   allocator will manage.
10. A whole format prints its literal text and, for each conversion, the text of its own arguments, stars included;
    conversions and stars take the arguments in order. Integers are laid out as flags, width and precision say
    and read back as their arguments, conversions read back as they were written, wide strings decode back, and every
    sink receives exactly this text.
11. A volume that was written is read back: every FAT entry, every cluster, every directory, and every file a path leads
    to, whole and nothing more. Cached FAT reads equal direct reads. On any disk a path can be read exactly when each
    name is the first match in the directory before and all of the file's chain can be read; the clusters are the ones
    meant exactly when no FAT entry on the chain is misread.

Where the code does not do what it is meant to do, it is stated exactly when the difference shows:

* The left merge of `free_pages` unlinks the wrong page (`mm/buddy.c:196-202`). `Buddy.BuddyAllocator.FreePages` is the
  corrected code, with the left buddy unlinked; `BuddyAsWritten.FreePagesAsWritten` is the code as it stands, from any
  state whose marks are right: the marks stay right, and lists that agreed with them still do exactly when no merge
  went to the left. `BuddyRuns.DoubleHandOut` is a run on two pages after which page 0 is handed out twice.
* Tables of fewer than two entries are accepted and copied as empty (`arch/x86/e820.c:40-41`): `E820.SmallTable`.
* From an unaligned start `vmm_virt_range_has_mapping` can miss the last page (`arch/x86/vmm.c:425`):
  `VmmSearch.RangeHasMapping` says exactly when, `VmmSearch.MissedPage` gives such a range. At the top of the address
  space its skips can wrap around (`arch/x86/vmm.c:399`, `arch/x86/vmm.c:407`): `VmmSearch.NeverEnds` says that in
  exactly the cases `VmmSearch.RangeHasMapping` asks to be excluded it never reports that there is no mapping;
  `VmmSearch.ForEverIff` says when it circles for ever and when it reports a mapping from elsewhere, with
  `VmmSearch.EmptySpaceCircles` and `VmmSearch.FarPageReported` as examples.
* `vmm_map` rounds up in 64-bit arithmetic. A range that reaches 2^64 is not mapped, since its end wraps around to before
  its start (`arch/x86/vmm.c:240`, `arch/x86/vmm.c:349`). If a range starts in the last page, past its first byte, the
  start is rounded to 0 (`arch/x86/vmm.c:243`, `arch/x86/vmm.c:352`); if large pages can be used and the range, trimmed
  to whole pages and not empty, starts in the last 2 MiB past their first byte, the start of the large pages is rounded
  to 0 (`arch/x86/vmm.c:257`). The code then maps from address 0 on: what is left of a range that ran past 2^64, and
  nearly the whole address space otherwise. `Ranges.AsMeantIff` states this as an if-and-only-if, `Rounding.CutIff` for
  the three pieces alone; `Ranges.WrapsInLastSlot` and `Ranges.WrapsInLastPage` are inputs.
* `bootmem_alloc_mapped` looks at the result of mapping the last stretch only (`arch/x86/bootmem.c:186-193`):
  `BootMap.AllocMapped` says exactly when everything was mapped and when an address is returned, and
  `BootMap.UnseenFailure` is a range for which an address is returned although its first stretch is not mapped.
* A task of priority 0 starves the others (`sched/sched.c:62`): `Scheduler.StarvationIff`, `Scheduler.StarvesForEver`.
* The mark of a deleted directory entry is compared with a signed character and never recognised (`boot/fat.c:168`):
  `FatDisk.DeletedIff`. A leading slash makes the first name be looked up twice (`boot/fat.c:185`, `boot/fat.c:212-213`):
  `FatDisk.TargetsIff`, `FatDisk.LeadingSlashRepeats`. The FAT cache ignores the size of the volume
  (`boot/fat.c:93-99`): `Fat.Reader.NextCluster`, `Fat.HitBeyondVolume`. A name without a dot runs on into the extension
  after eight characters (`boot/fat.c:188-202`): `FatDisk.ShortName`. The upper four bits of a FAT entry, which are
  reserved, are not masked (`boot/fat.c:128`), so that an entry that has some of them set ends the chain:
  `FatDisk.LinksIff`, `FatDisk.WholeFileIff`, `FatDisk.EndsEarlyExample`.

## Model

| member | source | states |
|---|---|---|
| `Zones.SplitOk` | mm/buddy.c:160-168 | splitting a live block keeps blocks aligned, disjoint and coalesced |
| `Zones.MergeOk` | mm/buddy.c:183-205 | joining a live block with its free buddy keeps blocks aligned, disjoint and coalesced |
| `Zones.GiveOk` | mm/buddy.c:207-207 | listing a block that has no free buddy keeps the zone coalesced |
| `ZoneTheorems.AllocOk` | mm/buddy.c:149-172 | an allocation keeps the tiling and the managed pages, and makes exactly one new live block of the order asked for |
| `ZoneTheorems.FreeOk` | mm/buddy.c:174-208 | a free keeps the invariant and the managed pages, removes exactly one live block, and does nothing for any other page |
| `ZoneTheorems.AllocFreePages` | mm/buddy.c:149-172 | the free pages after an allocation are the free pages before without exactly the block, all of which was free |
| `ZoneTheorems.FreeFreePages` | mm/buddy.c:174-208 | the free pages after a free are the free pages before plus exactly the block, none of which was free |
| `ZoneTheorems.FreeRunInOneBlock` | mm/buddy.c:112-140 | in a coalesced zone an aligned run of 2^k free pages lies in one free block of order k or more |
| `ZoneTheorems.AllocComplete` | mm/buddy.c:149-172 | an allocation of order k fails if and only if no aligned run of 2^k free pages exists |
| `ZoneTheorems.AllocThenFree` | mm/buddy.c:149-208 | freeing the result of an allocation at once restores the zone, every list in its order |
| `ZoneTheorems.RunTheorem` | mm/buddy.c:149-208 | after every sequence of allocations and frees the invariant holds, the managed pages are the same, and allocation is complete |
| `ZoneTheorems.LiveDisjoint` | mm/buddy.c:149-172 | two live blocks that share a page are the same block |
| `ZoneTheorems.Conservation` | mm/buddy.c:149-208 | after every sequence of operations free and live pages are disjoint and together the managed pages, so their number is constant |
| `ZoneTheorems.SameLiveSameFree` | mm/buddy.c:149-208 | two states with the same live blocks and managed pages have the same free pages |
| `Pages.NonHeadsAreTails` | include/page.h:5-8 | a managed page is marked tail exactly when it heads no block, and a page is reserved exactly when it is not managed |
| `Pages.SplitBuddyIsTail` | mm/buddy.c:163-164 | the page at the middle of a block that is split is marked tail, so the panic is not reached |
| `Pages.InsertLinks` | mm/buddy.c:15-26 | pushing a page makes the lists, as read from the links, those with the page in front of its order, and no others change |
| `Pages.PopLinks` | mm/buddy.c:28-40 | popping leaves the rest of the list in order and unlinks the page |
| `Pages.UnlinkLinks` | mm/buddy.c:42-57 | removing a page anywhere in its list leaves the others in order and all other lists alone |
| `Pages.ListsUnique` | mm/buddy.c:11-11 | the links of the page array determine the list they spell |
| `Buddy.AlignmentOrderAligned` | mm/buddy.c:59-63 | the alignment order is at least k exactly for pages aligned to 2^k, up to the maximum order |
| `Arith.AlignedIsMultiple` | mm/buddy.c:59-63 | alignment read bit by bit is divisibility by the block size |
| `Buddy.MergeChoice` | mm/buddy.c:185-198 | the side test and the buddy's marks decide exactly whether, and with which page, a block can be merged |
| `Buddy.BuddyAllocator.InsertFree` | mm/buddy.c:15-26 | the arrays afterwards are the pushed ones |
| `Buddy.BuddyAllocator.PopFree` | mm/buddy.c:28-40 | returns the head of the list; the arrays afterwards are the popped ones, unchanged if the list was empty |
| `Buddy.BuddyAllocator.RemoveFree` | mm/buddy.c:42-57 | the arrays afterwards are the unlinked ones, unchanged for a page that is on no list |
| `Buddy.BuddyAllocator.PopFirst` | mm/buddy.c:152-158 | pops the first non-empty list from the order asked for upwards |
| `Buddy.BuddyAllocator.SplitDown` | mm/buddy.c:160-170 | the block is halved down to the order asked for, right halves listed, tiling and links kept |
| `Buddy.BuddyAllocator.AllocPages` | mm/buddy.c:149-172 | keeps marks, links and tiling in agreement, does what the zone-level allocation does, and changes the arrays as the code on values does |
| `Buddy.BuddyAllocator.MergeOnce` | mm/buddy.c:183-205 | one turn merges exactly when a free buddy of the same order exists, to the left or right |
| `Buddy.BuddyAllocator.FreePages` | mm/buddy.c:174-208 | keeps marks, links and tiling in agreement, and does what the zone-level free does (left buddy unlinked as meant) |
| `BuddyAsWritten.FreePagesAsWritten` | mm/buddy.c:174-208 | as written, from any state whose marks are right: the marks again describe the zone with the block freed; nothing changes for a page that heads no live block; lists that agreed with the marks do so afterwards exactly when no merge went left |
| `BuddyAsWritten.MergeOnceAsWritten` | mm/buddy.c:183-205 | one turn as written: marks as meant, lists intact exactly as long as merges go right |
| `BuddyAsWritten.DamageShows` | mm/buddy.c:196-202 | after a left merge some list leads to a page that is not free of that order |
| `BuddyRuns.MarksMean` | include/page.h:5-8 | marks that are right mark exactly the free pages free and exactly the live pages allocated |
| `BuddyRuns.FreeAllAsWritten` | mm/buddy.c:174-208 | after any sequence of frees as written the marks are right, and free are exactly the old free pages and the blocks freed |
| `BuddyRuns.AllocMergesRight` | mm/buddy.c:149-208 | freeing what was just allocated never merges left |
| `BuddyRuns.AllocThenFreeAsWritten` | mm/buddy.c:149-208 | as written, an allocation and its free restore every list in its order, and the list heads |
| `BuddyRuns.RunAsWritten` | mm/buddy.c:149-208 | as written, a run in which no free merges left does what the zone-level run does, marks and lists in agreement |
| `BuddyRuns.LeftMergeEndsRun` | mm/buddy.c:196-202 | the first free of a run that merges left leaves lists that cannot be read so as to agree with the marks |
| `BuddyRuns.TwoPagesSettled` | mm/buddy.c:112-140 | two pages grouped into one free block are a right state |
| `BuddyRuns.DoubleHandOut` | mm/buddy.c:149-208 | from it, as written: allocate both pages, free both, and then one page and two pages allocated are both page 0 |
| `BuddyInit.Group` | mm/buddy.c:112-140 | grouping marked pages gives a valid, coalesced allocator whose free pages are exactly the marked ones, and counts them all |
| `BuddyInit.GroupBlock` | mm/buddy.c:119-139 | one turn makes the largest aligned block that starts there |
| `BuddyInit.GroupedEnd` | mm/buddy.c:112-140 | blocks grouped from left to right, each as large as it can be, leave no two free buddies |
| `BuddyMark.MarkRange` | mm/buddy.c:71-79 | marks the pages of the range below the end of the page array and counts them |
| `BuddyMark.MarkEntry` | mm/buddy.c:91-110 | one entry adds exactly its whole RAM pages outside the reserved range |
| `BuddyMark.Init` | mm/buddy.c:81-147 | free are exactly the whole RAM pages below the page count that have no byte from the start of the kernel to the end of the boot pool; expected and accounted pages are equal; the bytes reported are those of the free pages |
| `BuddyMark.NeverHandsOutReserved` | mm/buddy.c:88-89 | in every run afterwards no page with a byte of the kernel or of anything the boot pool handed out is free, live or allocated |
| `E820Sweep.CompareIsKeyOrder` | arch/x86/e820.c:31-35 | the comparison orders change points by address, starts before ends |
| `E820.SortPoints` | arch/x86/e820.c:60-69 | the insertion sort leaves the change points sorted and a permutation of what they were |
| `E820.CollectPoints` | arch/x86/e820.c:46-57 | collects both ends of every non-empty entry, and fails exactly when an entry runs past 64 bits |
| `E820.RemoveOverlap` | arch/x86/e820.c:81-85 | swap removal from the overlap list |
| `E820.SwapRemovedMembers` | arch/x86/e820.c:81-85 | swap removal takes exactly one entry out of the list |
| `E820.LargestType` | arch/x86/e820.c:93-97 | finds the largest type among the overlapping entries |
| `E820.Table.Change` | arch/x86/e820.c:99-115 | closes and opens runs as the sweep does, and reports a full table |
| `E820.SweepPoints` | arch/x86/e820.c:71-116 | the table holds the first 256 entries of what the sweep emits |
| `E820Sweep.ActiveHolds` | arch/x86/e820.c:75-86 | between change points the type of an address is the largest type of the active entries |
| `E820Sweep.SweepOk` | arch/x86/e820.c:71-116 | after every change point what was emitted is canonical and has the right type at every address passed |
| `E820Sweep.SweepEnd` | arch/x86/e820.c:71-116 | the sweep ends with the canonical form of the table |
| `E820Spec.CanonicalUnique` | arch/x86/e820.c:31-125 | two canonical tables with the same type at every address are equal |
| `E820.Sanitize` | arch/x86/e820.c:37-125 | with two or more entries: refused exactly for more than 256 or an overflowing entry, otherwise the first 256 entries of the canonical form, in which every address has the maximum type of the entries covering it |
| `E820.SmallTable` | arch/x86/e820.c:40-41 | for fewer than two entries the empty result is right exactly when no entry has both a size and a type |
| `E820.LastRam` | arch/x86/e820.c:139-146 | the scan from the end finds the highest RAM address |
| `Bootmem.Pool.Init` | arch/x86/bootmem.c:29-61 | the pool starts in the first RAM entry that reaches beyond the kernel; panics exactly when there is none or it starts beyond the identity map; a second call changes nothing |
| `Bootmem.FindPage` | arch/x86/bootmem.c:77-90 | finds the lowest page at or above the pool end that lies in RAM, or none exactly when there is none |
| `Bootmem.Pool.AllocPage` | arch/x86/bootmem.c:63-91 | hands out that page, adds it to everything handed out (disjoint, ascending, aligned, in RAM, above the kernel) and to the byte count; a failure changes nothing; the panics are not reached |
| `Bootmem.FindSegments` | arch/x86/bootmem.c:135-160 | gathers stretches of RAM whose sizes add up to the request, none exactly when the whole RAM pages left are fewer; for whole-page requests the stretches hold exactly the lowest of these pages |
| `Bootmem.Pool.AllocSegments` | arch/x86/bootmem.c:116-164 | hands the stretches out; empty and unchanged exactly when disabled, nothing is asked for, or the pages left are too few; whole-page requests get the lowest pages, as whole pages |
| `Bootmem.AvailableIsPages` | arch/x86/bootmem.c:135-142 | the bytes found entry by entry are 4096 times the number of whole RAM pages at or above the pool end |
| `BootMap.MapStretches` | arch/x86/bootmem.c:184-191 | one stretch after the other is mapped, nothing outside the range changes, and only the failure of the last one is seen |
| `BootMap.AllMappedIff` | arch/x86/bootmem.c:184-191 | every byte of the range translates to the stretches in order exactly when no 2 MiB slot that was to become a large page was taken |
| `BootMap.AllocMapped` | arch/x86/bootmem.c:166-197 | null, with nothing done, exactly when disabled, nothing or address 0 is asked for, the search reports a mapping or an unusable table, or the pages left are too few; otherwise the lowest pages are handed out and, from a page-aligned start with tables enough, all of the range translates to them in order exactly when no slot for a large page was taken; the address is returned exactly when the last stretch could be mapped, a panic otherwise and for an unaligned start; handed out are the stretches and the new tables and no more |
| `BootMap.UnseenFailure` | arch/x86/bootmem.c:186-193 | an unmapped range whose first stretch cannot be mapped whole and whose last can |
| `BootMap.HandOver` | kernel/entry.c:105-105 | after the buddy allocator was set up no table lies in memory it manages |
| `Bootmem.Pool.Lock` | arch/x86/bootmem.c:199-202 | only the state changes |
| `Scheduler.Pick` | sched/sched.c:65-70 | the first running slot of least virtual time |
| `Scheduler.TickExact` | sched/sched.c:59-75 | under the invariant a tick wraps nothing, shifts all running tasks by the same amount, stores the registers of the interrupted task, and keeps priorities, tables and numbers |
| `Scheduler.TickInv` | sched/sched.c:59-85 | after each tick every running task is at most its priority ahead of the chosen one, which stands at zero |
| `Scheduler.CreateInv` | sched/sched.c:19-35 | creating a task keeps the invariant and the running tasks |
| `Scheduler.CreateMakes` | sched/sched.c:19-35 | the first free slot becomes the task asked for: priority, table, number, selectors, flags; no other slot changes |
| `Scheduler.CreatePids` | sched/sched.c:32-32 | no two tasks have the same number until 2^64 have been created |
| `Scheduler.StartInv` | sched/sched.c:37-41 | starting a task keeps the invariant |
| `Scheduler.StartMakes` | sched/sched.c:37-41 | the slot will be entered at the entry with its stack at the top given; nothing else changes |
| `Scheduler.FairFromCreation` | sched/sched.c:19-75 | two tasks created with priorities p and q and started, whatever happens afterwards: n_i*p and n_j*q differ by at most one of p and q |
| `Scheduler.EntersAsStarted` | sched/sched.c:19-83 | until it is first chosen a task keeps the entry, stack, selectors, flags and table it was created and started with |
| `Scheduler.GapIsCharges` | sched/sched.c:60-75 | over every run the gap between two tasks grows by exactly what each was charged, despite the subtraction of the minimum |
| `Scheduler.ProportionalFairness` | sched/sched.c:59-75 | two tasks that start level never differ in priority-weighted ticks by more than the larger priority |
| `Scheduler.TickRank` | sched/sched.c:59-75 | while another task is chosen each tick lowers the rank of a waiting task by exactly one |
| `Scheduler.NoStarvation` | sched/sched.c:59-75 | with positive priorities task i is chosen within the sum over the others of floor(p_i/p_j)+1 ticks |
| `Scheduler.NoStarvationFromBoot` | sched/sched.c:54-75 | before any task was chosen one tick more |
| `Scheduler.ZeroPrioritySticks` | sched/sched.c:62-75 | a chosen task of priority zero stays chosen for ever |
| `Scheduler.StarvationIff` | sched/sched.c:59-75 | nobody starves exactly when all running priorities are positive or only one task runs |
| `Scheduler.StarvesForEver` | sched/sched.c:59-75 | two running tasks, one of priority 0: the other is never chosen |
| `Scheduler.ResumesWhereItStopped` | sched/sched.c:61-83 | a task that is chosen again resumes with the registers it was interrupted with |
| `Scheduler.SchedulerState.GetFreeSlot` | sched/sched.c:10-15 | finds the first free slot |
| `Scheduler.SchedulerState.CreateTask` | sched/sched.c:19-35 | the first free slot holds the task asked for, with priority, table, number, selectors and flags, and no other slot changes; fails exactly when there is no free slot or no page table, in which case the null table is left in the slot, which stays free |
| `Scheduler.SchedulerState.RunTask` | sched/sched.c:37-41 | entry and stack are those given, the slot is runnable, and nothing else changes |
| `Scheduler.SchedulerState.Schedule` | sched/sched.c:59-85 | the slots, current task and clock after the call are those of one tick; the chosen task's registers and page table are returned |
| `PageTables.ReachUnique` | arch/x86/vmm.c:141-179 | only addresses of one slot, from roots that share its top-level table, come to a given table |
| `PageTables.MeetsIff` | arch/x86/vmm.c:141-192 | which walks of which roots look at a given entry |
| `Mapping.LinkedUpdates` | arch/x86/vmm.c:152-156 | linking a cleared table changes no translation of any root |
| `Mapping.LeafedUpdates` | arch/x86/vmm.c:188-204 | a new leaf changes exactly the translations of its slot, for exactly the roots that share the table; one that is not present changes none |
| `Mapping.UpdatesCompose` | arch/x86/vmm.c:207-274 | mapping steps compose, and map disjoint sets of pages |
| `Mapping.Isolation` | arch/x86/vmm.c:340-371 | a lower-half mapping of one root changes no translation of another |
| `Mapping.AgreeingRootsTranslateAlike` | arch/x86/vmm.c:444-445 | roots with equal upper halves translate every kernel address alike |
| `Mapping.AgreementKept` | arch/x86/vmm.c:440-447 | a mapping keeps a user root in agreement with the kernel exactly when it adds no upper-half top-level entry to either |
| `Vmm.Mmu.AllocFrame` | arch/x86/vmm.c:128-139 | a page of its own from the boot or the buddy allocator, whichever is in use; none exactly when that has none left |
| `Vmm.Mmu.GetOrCreateTable` | arch/x86/vmm.c:141-157 | finds the next table on the path, or makes it with a present, writable user entry; blocked only by a larger page; no translation changes; the memory in use grows by the new table |
| `Vmm.Mmu.GetOrCreatePd` | arch/x86/vmm.c:172-179 | the same down to the page directory |
| `Vmm.Mmu.GetOrCreatePt` | arch/x86/vmm.c:159-170 | the same down to the page table |
| `Vmm.Mmu.SetPage` | arch/x86/vmm.c:181-192 | maps exactly the page, or fails exactly when misaligned or already mapped |
| `Vmm.Mmu.SetLargePage` | arch/x86/vmm.c:194-205 | maps exactly the 2 MiB slot, or fails exactly when misaligned or the slot is taken |
| `Vmm.Mmu.SetPages` | arch/x86/vmm.c:207-220 | sets exactly the unmapped pages of the range; failed bytes and bytes set add up; a misaligned request fails whole |
| `Vmm.Mmu.SetLargePages` | arch/x86/vmm.c:222-234 | sets exactly the slots not taken; failed bytes and bytes set add up; a misaligned request fails whole |
| `Rounding.RoundUpWordIs` | include/math.h:9-13 | rounding up in 64-bit arithmetic is the rounding meant except above the last multiple, where it gives 0 |
| `Rounding.CutFits` | arch/x86/vmm.c:256-267 | the three pieces meant of a range are aligned, consecutive, cover it and keep in step with the physical side |
| `Rounding.CutIff` | arch/x86/vmm.c:257-267 | the pieces computed in 64-bit arithmetic are the pieces meant exactly when the range does not start in the last 2 MiB past their first byte |
| `Rounding.CutWraps` | arch/x86/vmm.c:257-267 | otherwise the large piece starts at 0 and reaches up to the last 2 MiB of the address space |
| `Ranges.TrimIs` | arch/x86/vmm.c:240-255 | trimming in 64-bit arithmetic is trimming the effective range, byte for byte |
| `Ranges.AsMeantIff` | arch/x86/vmm.c:340-371 | the pages set are those wholly inside the range asked for if and only if it does not reach 2^64 with a whole page, does not start in the last page past its first byte, and, with large pages, is not trimmed to a start in the last 2 MiB past their first byte |
| `Ranges.WrapsInLastSlot` | arch/x86/vmm.c:257-265 | one page asked for in the last 2 MiB: nearly everything from 0 on is mapped |
| `Ranges.WrapsInLastPage` | arch/x86/vmm.c:242-247 | no whole page asked for in the last page: nearly everything from 0 on is mapped |
| `Vmm.Mmu.SetRange` | arch/x86/vmm.c:236-274 | on 64-bit addresses, mixed page sizes: only whole pages inside the effective range, exactly the settable ones, sizes adding up; nothing when the sides are not in step |
| `Vmm.Mmu.Map` | arch/x86/vmm.c:340-371 | refused exactly for a null table and a misaligned one, the kernel's included; otherwise, with the kernel's table when that is asked for, refines a plain map update: every newly mapped virt+i translates to phys+i, all else keeps its translation, the pages set are exactly those that could be, failed bytes plus bytes set equal the size; without the present bit nothing translates anew; 2 MiB slots outside the range are as taken as they were; the range is the effective one, as 64-bit arithmetic takes it |
| `Vmm.MapIsIsolated` | arch/x86/vmm.c:340-371 | a lower-half mapping changes no other address space and keeps every user's kernel half in agreement with the kernel's |
| `VmmSearch.LookAt` | arch/x86/vmm.c:395-429 | one look finds the level at which the walk stops, or a mapping |
| `VmmSearch.RangeHasMapping` | arch/x86/vmm.c:388-432 | terminates; -1 exactly for a null or misaligned table, the kernel's included; otherwise 1 exactly when some address of the range translates from that table, the kernel's when that is asked for, except when the 4 KiB steps from an unaligned start pass over the last page |
| `VmmSearch.NeverEnds` | arch/x86/vmm.c:393-429 | when nothing of the range translates and the absent entry at its end is the last of the address space, the loop never comes to report that |
| `VmmSearch.ForEverIff` | arch/x86/vmm.c:393-429 | then it goes on for ever exactly when nothing below the end of the range translates, and otherwise reports a mapping from below the range |
| `VmmSearch.EmptySpaceCircles` | arch/x86/vmm.c:398-401 | an empty PML4 and a range whose search never ends |
| `VmmSearch.FarPageReported` | arch/x86/vmm.c:398-428 | a forest and a range without a mapping for which one is reported |
| `VmmSearch.AlignedMissesNothing` | arch/x86/vmm.c:388-432 | from an aligned start the exception does not arise |
| `VmmSearch.MissedPage` | arch/x86/vmm.c:424-427 | a range whose only mapping is missed |
| `Teardown.SpaceItemsAre` | arch/x86/vmm.c:457-501 | the nested loops visit exactly the tables on user-half paths, the frames of user-half leaves, and the PML4 |
| `Teardown.VisitedOnce` | arch/x86/vmm.c:457-501 | no table is visited twice |
| `Teardown.RestOk` | arch/x86/vmm.c:450-504 | the forest without them is well-formed |
| `Teardown.RestTranslates` | arch/x86/vmm.c:450-504 | every other root, the kernel's included, is still there and translates as before |
| `Spaces.WithSpaceTranslates` | arch/x86/vmm.c:440-447 | a new space has an empty user half and the kernel's mappings, and no other space changes |
| `Spaces.SessionMap` | arch/x86/vmm.c:340-371 | allocating a block and mapping it whole keeps the space owner of exactly the blocks made live since it was created |
| `Spaces.TeardownRestores` | arch/x86/vmm.c:450-504 | giving back what the space owns leaves exactly the live blocks and free pages from before it was created |
| `VmmUser.CreateUser` | arch/x86/vmm.c:440-447 | the new space is the old forest with such a PML4, in a page of its own |
| `VmmUser.FreePt` | arch/x86/vmm.c:479-489 | the frames of a page table and the table stop being live, as written (marks) and as meant (marks and lists) |
| `VmmUser.FreePd` | arch/x86/vmm.c:467-493 | the same for a page directory; the alignment panic is not reached |
| `VmmUser.FreePdpt` | arch/x86/vmm.c:462-497 | the same for a page directory pointer table |
| `VmmUser.DestroyUser` | arch/x86/vmm.c:450-504 | refuses the kernel's PML4; otherwise exactly the items of the space are given back, each table once, and leave the forest; as written with the marks right before and after, as meant with the lists too |
| `VmmUser.MapBlock` | kernel/entry.c:44-48 | allocates a block and maps it: failed and mapped bytes add up to the block, every other space is kept, at an aligned address exactly the pages that could be set are, and with no failed bytes the space owns exactly its blocks as before |
| `VmmUser.Life` | arch/x86/vmm.c:440-504 | create, any number of mapped blocks, destroy, as written and as meant: unless memory ran out or a block was mapped in part only, the pages marked free and the live blocks are as before; a block is never mapped in part only when the wants are page-aligned and no two meet; all other spaces are as before in every case |
| `PrintkText.DigitsValue` | lib/printk.c:104-107 | the digits of a number have its value |
| `PrintkText.IntegerLength` | lib/printk.c:163-181 | the text is as long as the larger of width and field |
| `PrintkText.IntegerShape` | lib/printk.c:143-181 | the text is spaces, sign, prefix, zeros, digits and spaces, each exactly as flags, width and precision say |
| `PrintkText.IntegerRoundTrip` | lib/printk.c:112-182 | in base 8, 10 and 16, with all flags, widths and precisions, skipping padding and prefix and reading sign and digits gives the number back |
| `PrintkText.Utf8RoundTrip` | lib/printk.c:63-79 | wide strings of characters up to 0x10FFFF decode back by section 3 of RFC 3629, surrogates let through |
| `PrintkText.Utf8Outside` | lib/printk.c:63-79 | a negative character is one byte, one above 0x10FFFF is nothing |
| `Printk.Context.Flush` | lib/printk.c:48-54 | every registered sink gets the buffered bytes as one non-empty chunk |
| `Printk.Context.Putc` | lib/printk.c:56-61 | one more byte is emitted; sinks and buffer together still hold exactly what was emitted |
| `Printk.Context.Putwc` | lib/printk.c:63-79 | emits the encoding of the character |
| `Printk.Context.Ntoa` | lib/printk.c:95-110 | the digits of any 64-bit value in base 8 to 16 fit the scratch buffer, so no question mark is written |
| `Printk.PlanInteger` | lib/printk.c:146-169 | sign, prefix, zeros and padding make up the text of the conversion |
| `Printk.Context.Integer` | lib/printk.c:112-182 | emits that text |
| `Printk.ParseDirective` | lib/printk.c:198-244 | flags, width, precision and length as the format's grammar has them |
| `PrintkFormat.WrittenParses` | lib/printk.c:198-246 | every combination of flags, width, precision and length, stars included, written out before a letter anywhere in a format, is parsed back as it was, each star taking the next argument |
| `Printk.Context.Convert` | lib/printk.c:246-316 | each conversion emits its text |
| `Printk.Context.Interpret` | lib/printk.c:191-320 | emits exactly the unbuffered output, which PrintkFormat.FormatPrints describes, and returns its length |
| `Printk.Vprintk` | lib/printk.c:184-321 | every registered sink's chunks are 1 to 64 bytes and concatenate to the output, unregistered ones get nothing, the result is the length; for every format made of pieces the output is the texts of the pieces |
| `PrintkFormat.PrintedIntegerReadsBack` | lib/printk.c:250-255 | an integer conversion with any flags, width, precision or star reads back as its own argument, reduced to the length modifier if it does not fit, and fills the width |
| `PrintkFormat.IntegerPrints` | lib/printk.c:112-182 | an integer conversion prints its reduced argument in the layout its flags, width and precision ask for, with the base and case of its letter |
| `PrintkFormat.Reduced` | lib/printk.c:113-141 | the reduction to a length is the one number in its range that differs by a multiple of its size |
| `PrintkFormat.FormatPrints` | lib/printk.c:191-318 | from every piece of a format on, the output is the texts of the pieces, each with the arguments that those before it left, followed by what follows |
| `PrintkFormat.WholeFormatPrints` | lib/printk.c:191-318 | a format of literal text, percent signs and conversions prints exactly the texts of its pieces; unknown letters print themselves |
| `PrintkFormat.UnfinishedPrints` | lib/printk.c:246-247 | a conversion cut off before its letter prints nothing and ends the format |
| `PrintkFormat.StringPrints` | lib/printk.c:265-282 | a string conversion prints its argument up to the precision, or (null), in a field of the width |
| `PrintkFormat.WideStringPrints` | lib/printk.c:265-282 | the same for wide strings, encoded, with width and precision counting characters |
| `PrintkFormat.CharacterPrints` | lib/printk.c:257-263 | a character conversion prints one byte, or one encoded character, in a field of the width |
| `PrintkFormat.PointerShape` | lib/printk.c:284-297 | a pointer is 0x and sixteen lower-case digits that read back |
| `PrintkFormat.PointerPrints` | lib/printk.c:284-297 | a pointer conversion prints that in a field of the width |
| `Fat.HitAgrees` | boot/fat.c:89-130 | a cache hit gives the FAT entry on the disk, and equals a direct read exactly when the sector is inside the volume |
| `Fat.HitBeyondVolume` | boot/fat.c:93-99 | volumes that differ in size only: a hit where a direct read fails |
| `Fat.Reader.Fetch` | boot/fat.c:109-119 | fills the cache with the sector, or leaves it alone |
| `Fat.Reader.NextCluster` | boot/fat.c:121-130 | after any lookups on any volumes the answer is the direct one, except exactly when a sector beyond the end of the volume is answered from the cache, which takes a larger volume with the same identification |
| `Fat.Reader.FileLookup` | boot/fat.c:154-182 | finds what the search of the directory's chain finds |
| `FatDisk.LookupIsFirstMatch` | boot/fat.c:154-182 | the search by sectors and clusters finds exactly the first entry of the name, before the end mark, among those that can be read one after the other; what follows need not be readable |
| `FatDisk.DeletedIff` | boot/fat.c:168-168 | not passing over deleted entries shows exactly for names that start with 0xE5 |
| `Fat.ShortNameOf` | boot/fat.c:184-205 | reads a name as its character-by-character description has it |
| `FatDisk.ShortName` | boot/fat.c:184-205 | any name and extension are cut or filled to eight and three characters in upper case; eleven characters before a dot leave no extension, and a name without a dot runs on into it |
| `FatDisk.UpperIs` | boot/fat.c:201-201 | exactly the letters a to z change, to the capital letter |
| `FatDisk.ComponentsRoundTrip` | boot/fat.c:207-215 | the components of a path are what was written between slashes |
| `FatDisk.TargetsIff` | boot/fat.c:207-215 | the names looked up are those of the path's non-empty components exactly when no component is empty |
| `FatDisk.LeadingSlashRepeats` | boot/fat.c:185-213 | after a leading slash the first name is looked up twice |
| `Fat.Reader.PathLookup` | boot/fat.c:207-218 | resolves the names one after the other from the given directory |
| `Fat.Reader.Read` | boot/fat.c:220-239 | when the chains followed end, terminates with the data of the file the path leads to, or fails when a read or lookup does |
| `FatDisk.ReadPathSame` | boot/fat.c:220-239 | those data do not depend on the bound on links |
| `FatDisk.AcyclicPathEnds` | boot/fat.c:220-239 | on a volume without cyclic chains every path's chains end |
| `FatDisk.FileIsItsClusters` | boot/fat.c:231-237 | a file can be read exactly when all clusters and links of its chain can, and is these clusters, concatenated |
| `FatDisk.ResolveIff` | boot/fat.c:207-218 | names lead to an entry exactly if there is a trail of directories, each next one the first match of its name |
| `FatDisk.ReadIff` | boot/fat.c:220-239 | a path gives data exactly if there is such a trail from the root and the data are the readable chain of its last entry |
| `FatDisk.LinksIff` | boot/fat.c:121-130 | the chain followed is a prefix of the chain of 28-bit entries, and all of it exactly when no entry on it has upper bits set over the number of a cluster |
| `FatDisk.WholeFileIff` | boot/fat.c:231-237 | a file that can be read consists of the clusters meant exactly then |
| `FatDisk.EndsEarlyExample` | boot/fat.c:128-128 | the entry 0x10000005 makes a file of two clusters end after the first |
| `FatImage.WordRoundTrip` | boot/fat.c:128-128 | four bytes written least significant first are read back as the number |
| `FatImage.LinkRoundTrip` | boot/fat.c:121-130 | on a disk that holds a volume the entry of every cluster is the link written for it |
| `FatImage.ClusterRoundTrip` | boot/fat.c:233-234 | every cluster is read back |
| `FatImage.FileRoundTrip` | boot/fat.c:231-237 | every linked list of clusters is read back as their contents, whole and nothing more |
| `FatImage.EntryRoundTrip` | boot/fat.c:134-148 | a directory entry is read back from its 32 bytes |
| `FatImage.DirRoundTrip` | boot/fat.c:154-182 | the entries found in a directory are those written, in order |
| `FatImage.DirectoryBitIs` | boot/fat.c:155-155 | a directory is an entry with bit 4 of its attributes set |
| `FatImage.LookupRoundTrip` | boot/fat.c:154-182 | a name is found exactly as the first of the entries written that has it |
| `FatImage.ResolveRoundTrip` | boot/fat.c:207-218 | names that lead through directories written to the volume are resolved |
| `FatImage.ReadRoundTrip` | boot/fat.c:220-239 | a file written to a volume and reached by a path is read back, whole and nothing more |

## Left out

- Port I/O, interrupt controller and timer, descriptor tables, UART and VGA drivers, assembly stubs: hardware plumbing.
- CR3, EFER and CR4 accesses and TLB flushing: translations are those of the tables in memory.
- The mappings made at boot (`map_low_identity`, `map_kernel`, `vmm_map_hhdm`) and their static tables: the mapping model starts from any well-formed forest with the boot allocator as the source of tables.
- Bit packing of page-table entries: an entry is an address with its flags as fields; addresses are aligned where the code masks.
- `task_alloc_pages` and freeing of tasks: the list through the pages of a task is not modelled.
- Diagnostic output inside the memory code; the clock display of the scheduler.
- The `%n` pointer writes, the level prefix of `vprintk`, and registering sinks: easy members; sinks are fixed during a call, and a missing or mistyped argument reads as 0 or null.
- Overflow of `int` widths and precisions in format strings: they are unbounded.
- `fat_dev_init`: a volume is given by its fields.
- ZoneTheorems.RunTheorem: over runs with the left buddy unlinked as meant; BuddyRuns.RunAsWritten and BuddyRuns.LeftMergeEndsRun say which runs of the code as written it covers.
- ZoneTheorems.Conservation: over the same runs; BuddyRuns.FreeAllAsWritten is its counterpart for frees as written.
- ZoneTheorems.AllocThenFree: of the zone-level free; BuddyRuns.AllocThenFreeAsWritten is the statement about the code.
- Buddy.BuddyAllocator.MergeOnce: the left merge is the corrected one; BuddyAsWritten.MergeOnceAsWritten is the code's.
- Buddy.BuddyAllocator.FreePages: the left merge is the corrected one; BuddyAsWritten.FreePagesAsWritten is the code's.
- Vmm.Mmu.Map: virtual addresses are taken by their low 48 bits, and the effective range crosses no multiple of 2^48, where addresses are not canonical; so it says nothing of ranges for which the code goes on to map nearly everything from 0, which Ranges.AsMeantIff singles out. When the buddy allocator is exhausted, which the code does not check (`arch/x86/vmm.c:134-135`), the model stops with the pages mapped so far described and no free page left; when the boot allocator is, the bytes that need a table count as failed, as in the code.
- Vmm.Mmu.AllocFrame: the direct map through which the code reaches a page is not modelled; a page is its table.
- Vmm.Mmu.GetOrCreateTable: an exhausted buddy allocator is an outcome of its own, where the code would use a null page.
- VmmUser.CreateUser: returns no space when the allocator is exhausted, where the code would use a null page.
- Vmm.Mmu.SetRange: the same ranges as Vmm.Mmu.Map.
- VmmUser.DestroyUser: asks that the user half has no 1 GiB pages, which the code never makes and would take for tables, and that its frames are pages of the page array and no tables, as the code does without checking.
- VmmUser.Life: the page array describes memory with 64-bit addresses.
- VmmSearch.RangeHasMapping: asks for ranges on which the loop ends; VmmSearch.NeverEnds and VmmSearch.ForEverIff are about all others.
- BootMap.AllocMapped: asks for a present mapping, for RAM below 2^64, for a range that ends before the last 2 MiB and crosses no multiple of 2^48, and for a search that ends; when the boot allocator runs out of tables on the way it says only that, and that nothing outside the range changed.
- BootMap.MapStretches: asks the same.
- Bootmem.Pool.AllocSegments: the segment headers written into the memory handed out are the returned list.
- BuddyMark.NeverHandsOutReserved: over runs with the left buddy unlinked as meant; by BuddyRuns.RunAsWritten also over the runs of the code as written in which no free merges left.
- BuddyMark.Init: entries are taken as sorted and disjoint, as the sanitiser leaves them, and address sums do not overflow.
- Fat.Reader.Fetch: a failed read is taken to leave the cache buffer unchanged.
- Fat.Reader.FileLookup: asks that no sector beyond the end of the volume is cached for it, which takes an earlier lookup on a larger volume with the same identification; Fat.Reader.NextCluster keeps it so, and says exactly what happens otherwise.
- Fat.Reader.PathLookup: asks the same of the cache.
- Fat.Reader.Read: asks the same of the cache, and that the chains followed end; on a cyclic one the loop of the code does not. FAT entries are used unmasked, as the code does; FatDisk.WholeFileIff says when that shows.
