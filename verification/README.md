# Beast OS: a verified model

A Dafny model of the logic of the Beast OS kernel and of two programs on top of it, with proofs. Hardware, assembly
and input/output are parameters or absent. Each component has two layers: functions on values that say what an
operation does, with the theorems about them, and, where the source works in place, classes and loops proved to compute
those functions.

| files | component |
|---|---|
| `Pmm` | physical pages: a bitmap, a counter and a run search |
| `Paging`, `Vmm`, `Rights`, `Spaces`, `HugePages`, `Machine` | four-level page tables: walking, mapping, splitting huge pages, demand paging, address spaces; `Rights` is about permissions, `HugePages` has the states below huge pages, `Machine` is the in-place form |
| `UserPages` | the frames of user pages over whole runs |
| `Elf`, `ElfImage` | loading of a program segment and of all segments, over the above |
| `Mlfq`, `SchedulerInvariant`, `SchedulerProgress`, `SchedulerSteps`, `Scheduler` | the feedback-queue scheduler: operations, invariants over all runs, waiting times, what each step does to tasks and queues; `Scheduler` is the in-place form |
| `SpscRing`, `Channel`, `ChannelCalls` | the lock-free ring, the blocking channel and what its calls return with, as interleavings of single atomic operations |
| `Heap` | the first-fit free-list allocator |
| `Paths`, `Files`, `FileRuns`, `FileStore` | path algebra and the content-addressed file layer; `FileRuns` refines it to a plain map, `FileStore` is the in-place form |
| `Editor`, `EditorBuffer` | the text editor and its 2-D buffer |
| `Fat32` | cluster chains and file reads |
| `Arith`, `Bits`, `Wrappers` | shared definitions |

`dafny verify dfyconfig.toml` checks the project.

Physical memory is a map from frame numbers to tables and data pages. A ghost map gives every table in use its one place
in one address space; that tree shape is what makes a change to one table local. Words used as bit sets are sets of bit
positions; addresses and indexes are natural numbers, with wrap-around written out where the source relies on it.

Where the source does not do what it or its comments promise:

- `kernel/src/ipc/channel.rs:153-156`, and `kernel/src/ipc/channel.rs:109-117` for `send`, re-check the ring before
  blocking to close the race with the other side. A wake that comes between the re-check and `block_current` is only
  recorded in `awake_pending`, which nothing reads (`Channel.WakeCanBeLost`, `Channel.LostStaysLost`,
  `Channel.SenderWakeCanBeLost`, `Channel.SenderStaysLost`); `Channel.ReceiverBlockExact` and `Channel.SenderBlockExact`
  give the exact condition at the call.
- `kernel/src/memory/vmm.rs:149-203` resolves a fault without looking for a huge page, so a fault on an address that
  translates can give a frame to another page (`HugePages.FaultHitsOther`). `Spaces.FaultExact` and
  `Spaces.FaultEverywhere` say exactly when.
- `kernel/src/memory/vmm.rs:206-238` unmaps a page without looking for a huge page, so the page stays and another one can
  be lost (`HugePages.UnmapLeavesHuge`, `HugePages.UnmapHitsOther`). `Spaces.UnmapNeedsNoHuge` and
  `Spaces.UnmapEverywhere` say exactly when.
- `kernel/src/memory/vmm.rs:289-334` says it keeps the flags of a huge page that it splits, but the new table entry above
  the parts has user access only if the mapping asked for it, so the other parts can lose it
  (`HugePages.SplitTakesUser`). `Spaces.RightsKept` says exactly when.
- `kernel/src/fs/elf_loader.rs:125-131` maps a page for an empty segment that is not page aligned. `Elf.NoStrayPage` gives
  the exact condition.
- `kernel/src/fs/elf_loader.rs:133-154` gives every page of a segment a new frame, also a page that an earlier segment has
  (`ElfImage.SharedPageLoses`). `ElfImage.LoadImage` says what is read then.
- `kernel/src/memory/pmm.rs:26-79` counts pages of overlapping regions twice (`Pmm.PhysicalMemory.Init`,
  `Pmm.OverlapExample`).
- `kernel/src/storage/hash.rs:13-21` is a placeholder that keeps 32 bytes, so files can collide (`Files.SaveExact`,
  `Files.CollisionLoses`).
- `kernel/src/fs/file_ops.rs:25-130` never releases a token whose path is overwritten (`Files.OrphansExact`,
  `Files.OverwriteOrphans`, `Files.OrphanStays`).
- `userland/editor/src/main.rs:300` refuses to join two lines that enter made from a full row (`Editor.EnterBackspace`,
  `Editor.FullRow`).
- `kernel/src/memory/vmm.rs:301` and `kernel/src/memory/vmm.rs:324` clear 4096 tables where one is meant, since the count is in tables. The
  model clears the one fresh frame.
- `kernel/src/scheduler/mod.rs:382-387` resumes the old task when nothing is Ready, even if it is Blocked or Dead.
  `SchedulerSteps.ExitExact` and `SchedulerSteps.BlockWaits` give the exact condition.

## Model

| member | source | states |
|---|---|---|
| `Pmm.LowestFree` | kernel/src/memory/pmm.rs:82-94 | the page answered is free and no free page lies below it; none is answered only when no page is free |
| `Pmm.LowestRun` | kernel/src/memory/pmm.rs:108-130 | the start of the lowest run of that many free pages; none is answered only when there is no such run at all |
| `Pmm.CallBalanced` | kernel/src/memory/pmm.rs:82-130 | one call keeps the counter equal to the number of free bits and held frames apart from free ones; what it hands out was not held |
| `Pmm.RunBalanced` | kernel/src/memory/pmm.rs:82-140 | after every sequence of page, run and free calls the counter equals the number of free bits, held frames are apart from free ones, and no frame is held twice |
| `Pmm.AllocThenFree` | kernel/src/memory/pmm.rs:82-105 | freeing the page just allocated restores the bitmap and the counter |
| `Pmm.FreeBitAt` | kernel/src/memory/pmm.rs:136-140 | bit `p % 64` of word `p / 64` is page `p` of the free list the words stand for |
| `Pmm.WordScan` | kernel/src/memory/pmm.rs:84-92 | what a scan of a word for its lowest one bit has seen is the free list page by page |
| `Pmm.PhysicalMemory.Init` | kernel/src/memory/pmm.rs:26-79 | a page is free afterwards exactly when all its bytes lie in one usable region, it is above the first MiB and it has no byte of the kernel; the counter equals the number of free pages if and only if no two usable regions overlap |
| `Pmm.CoversExact` | kernel/src/memory/pmm.rs:36-50 | the pages marked for a region are those with all their bytes in it |
| `Pmm.KernelPages` | kernel/src/memory/pmm.rs:56-63 | the pages taken for the kernel are those with a byte of it |
| `Pmm.OverlapExample` | kernel/src/memory/pmm.rs:36-50 | any usable region listed twice, such as the first MiB, is an overlap, so that the counter is then wrong |
| `Pmm.PhysicalMemory.AllocPage` | kernel/src/memory/pmm.rs:82-94 | the loop over words hands out the lowest free page and changes nothing else |
| `Pmm.PhysicalMemory.FreePage` | kernel/src/memory/pmm.rs:97-105 | sets one bit and counts it, only when it was clear and in range |
| `Pmm.PhysicalMemory.AllocContiguous` | kernel/src/memory/pmm.rs:108-130 | the run-length loop finds the lowest run and clears exactly its bits; fails if and only if there is none |
| `Paging.AddressRoundTrip` | kernel/src/arch/paging.rs:41-49 | an entry gives back the address stored in it if and only if that is page aligned and below 2^52 |
| `Paging.PageNumber` | kernel/src/arch/paging.rs:134-151 | the four indexes read as digits base 512 are the page number, so they fix the page |
| `Paging.PrefixIndexes` | kernel/src/arch/paging.rs:134-151 | addresses with the same prefix at a level have the same indexes and prefixes at all levels above it |
| `Paging.OffsetSplit` | kernel/src/arch/paging.rs:134-151 | an offset in a huge page is an index and an offset in a page of the next smaller size |
| `Vmm.WalkThrough` | kernel/src/memory/vmm.rs:241-278 | changing one table changes a translation only through what it does to walks from that table: tables are never shared on two paths |
| `Vmm.SplitPreserves` | kernel/src/memory/vmm.rs:289-334 | splitting a 1 GiB or 2 MiB page keeps the translation of all its addresses if and only if its last small page starts below 2^52; no alignment of the base is needed |
| `Vmm.GetOrCreateKeeps` | kernel/src/memory/vmm.rs:338-381 | whether it finds, creates, splits or widens, the table found is the one of that place, reached through an entry that has the user and write permissions asked for; the tree shape stays, and no translation changes, also when it fails |
| `Vmm.SetLeafStep` | kernel/src/memory/vmm.rs:92-96 | writing the last entry changes the translation of one page only |
| `Vmm.WalkMissesWrite` | kernel/src/memory/vmm.rs:241-278 | whatever entry is written, in a table in use or not, a walk that does not read it is as before |
| `Vmm.WalkHitsWrite` | kernel/src/memory/vmm.rs:241-278 | a walk that reads the entry written goes on from the new entry |
| `Vmm.InstallKeeps` | kernel/src/memory/vmm.rs:75-97 | the walk from any level changes the translation of one page, or of none when memory runs out at any level |
| `Vmm.InstallFails` | kernel/src/memory/vmm.rs:75-97 | a mapping fails only when no frame is left, or with nothing changed when the root entry is marked huge |
| `Rights.AllowedTranslates` | kernel/src/memory/vmm.rs:241-278 | the permissions of an address, each allowed only if every entry on its walk allows it, are there exactly when it translates |
| `Rights.InstallGrants` | kernel/src/memory/vmm.rs:75-97 | after a mapping every table entry on the walk of the page has the user and write permissions asked for |
| `Rights.InstallChanges` | kernel/src/memory/vmm.rs:289-381 | what a mapping does to every entry of every table in use: none changes but those its walk reads; one that points to a table keeps its frame and gets only the permissions asked for; behind one that was absent nothing appears beside the page; behind one that was a huge page all other pages have its write and execute permissions, and user access exactly if asked for |
| `Rights.MapRights` | kernel/src/memory/vmm.rs:75-97 | for every other page of every space: nothing changes where the walks share no entry; else permissions asked for may be gained and none is lost, but user access in a huge page that was split; pages with entries of their own keep their flags |
| `Spaces.InstallExact` | kernel/src/memory/vmm.rs:75-97 | after the walk all addresses of the page go through the new entry and every other translation in every space is kept; on failure all are |
| `Spaces.MapExact` | kernel/src/memory/vmm.rs:75-97 | a mapped page translates to exactly the given frame plus offset, or to nothing when PRESENT is missing, and no other translation changes; every table entry on its walk has the user and write permissions asked for, its own entry has the flags asked for, so its permissions are those; what happens to the permissions of all other pages in all spaces, also on failure |
| `Spaces.RightsKept` | kernel/src/memory/vmm.rs:289-381 | a mapping that succeeds takes user access from another page if and only if it splits the huge page that page is in and does not ask for user access itself; it takes nothing else from any page |
| `HugePages.SplitTakesUser` | kernel/src/memory/vmm.rs:289-334 | a state with a huge page for users: mapping its first page for the kernel succeeds and takes user access from the page beside it |
| `Spaces.MapFreshExact` | kernel/src/memory/vmm.rs:128-145 | the page maps a frame that was free and is used now, with user access and writing, and no other translation changes; failure changes none |
| `Spaces.LeafTablePlace` | kernel/src/memory/vmm.rs:149-166 | without a huge page on the way, the walk ends at the page table of the address, through whose entry the whole page translates, or ends early, and then nothing on the page translates |
| `Spaces.UnmapExact` | kernel/src/memory/vmm.rs:206-238 | for every address: the call succeeds exactly when its walk ends at an entry that is present or reserved, and answers the frame of that; failure changes nothing; without a huge page on the way, a page that translates gives back its frame, and success leaves it untranslatable and changes no other translation; below a huge page the address translates, and all translations are kept unless a table in use was taken for a page table |
| `Spaces.UnmapReserved` | kernel/src/memory/vmm.rs:206-238 | unmapping a page that is reserved succeeds and answers address 0 |
| `Spaces.UnmapEverywhere` | kernel/src/memory/vmm.rs:206-238 | for every address unmapped and every address of every space: a translation is lost exactly when its walk reads the entry cleared, and is kept otherwise |
| `Spaces.UnmapNeedsNoHuge` | kernel/src/memory/vmm.rs:206-238 | unmapping a page that translates makes it untranslatable if and only if the walk of `unmap_page`, which does not look for huge pages, ends at an entry that the walk of `translate` reads; without a huge page on the way it does |
| `Spaces.FaultExact` | kernel/src/memory/vmm.rs:149-203 | for every address: a fault succeeds exactly when its walk ends at a reserved entry and a frame is free; failure changes nothing; the page it succeeds on did not translate if and only if no huge page is on the way, and then it maps a fresh zeroed frame, a second fault is refused, and no other translation changes; its entry is then present, no longer reserved and executable, with all other flags as they were |
| `Spaces.FaultEverywhere` | kernel/src/memory/vmm.rs:149-203 | for every address faulted on and every address of every space: a translation changes exactly when its walk reads the entry written at a level where that maps a page; it then appears on the fresh frame |
| `HugePages.FaultHitsOther` | kernel/src/memory/vmm.rs:149-203 | a state with a huge page over a page table in use: a fault on an address that translates succeeds and gives a frame to another page |
| `HugePages.UnmapHitsOther` | kernel/src/memory/vmm.rs:206-238 | in the same state an unmap succeeds, leaves its own page mapped and takes the translation of another page |
| `HugePages.UnmapLeavesHuge` | kernel/src/memory/vmm.rs:206-238 | a page inside a 1 GiB page cannot be unmapped: the call fails and the page still translates |
| `Spaces.ReserveExact` | kernel/src/memory/vmm.rs:128-140 | a reserved page does not translate, and reserving changes no other translation, also when it fails |
| `Spaces.LifeCycle` | kernel/src/memory/vmm.rs:128-238 | reserve, fault, fault again, unmap: untranslatable; fresh, zeroed, open to users and writable; refused; untranslatable again, over any state of the tables |
| `Spaces.CreateSpaceExact` | kernel/src/memory/vmm.rs:397-424 | outside the recursive slot a new space translates the kernel half as the kernel does and nothing in the user half; existing translations stay |
| `Spaces.NewSpaceRights` | kernel/src/memory/vmm.rs:397-424 | in the kernel half a new space allows what the kernel's tables allow; its recursive slot leads to its own root and is closed to users and execution |
| `Spaces.EventIsolated` | kernel/src/memory/vmm.rs:75-238 | one user-half map, reservation, fault or unmap in a space changes no translation in another |
| `Spaces.RunIsolated` | kernel/src/memory/vmm.rs:75-238 | the same for every sequence of such events and of births of spaces, failures included |
| `Spaces.BootTree` | kernel/src/memory/vmm.rs:51-72 | a kernel root with its recursive slot only has the shape that all page-table theorems require |
| `Spaces.BootIsolated` | kernel/src/memory/vmm.rs:75-424 | from boot: after any run of births and user-half events, any further run in other spaces keeps every translation of a space born in it |
| `UserPages.EventFrames` | kernel/src/memory/vmm.rs:128-238 | a birth, a fresh mapping, a reservation, a fault or an unmap in a user half keeps it that every frame of a user page is used, holds no table in use and is reached from one page only |
| `UserPages.RunFrames` | kernel/src/memory/vmm.rs:128-424 | the same over every run of such events |
| `UserPages.BootFrames` | kernel/src/memory/vmm.rs:128-424 | from boot, after every run of such events: two user addresses that translate into one frame are on the same page of the same space, and no walk in any space reads a table in that frame |
| `Machine.VirtualMemory.TranslateAddress` | kernel/src/memory/vmm.rs:241-278 | the four-level loop computes the recursive walk all theorems are about |
| `Machine.VirtualMemory.SplitPage` | kernel/src/memory/vmm.rs:289-334 | allocating, filling 512 entries in a loop and linking them is the split of the specification |
| `Machine.VirtualMemory.GetOrCreateTable` | kernel/src/memory/vmm.rs:338-381 | all branches refine the specification, out-of-memory included; on success the entry is present and has the user and write permissions asked for |
| `Machine.VirtualMemory.MapPageWithFlags` | kernel/src/memory/vmm.rs:75-97 | either the page translates to the frame with the flags given, below table entries that have the permissions asked for, and no other translation changed, or the call failed and no translation changed; and in both cases what all other pages may do afterwards |
| `Machine.VirtualMemory.MapUserPage` | kernel/src/memory/vmm.rs:128-145 | the on-demand and the eager branch refine their specifications; the eager one maps a frame that was free, open to users and writable |
| `Machine.VirtualMemory.HandleFault` | kernel/src/memory/vmm.rs:149-203 | refines the fault of the specification on every address, below a huge page included |
| `Machine.VirtualMemory.UnmapPage` | kernel/src/memory/vmm.rs:206-238 | refines the unmap of the specification on every address, below a huge page included |
| `Machine.VirtualMemory.CreateUserPageTable` | kernel/src/memory/vmm.rs:397-424 | the copy loop over the kernel half and the recursive entry give the new space of the specification |
| `Elf.FillPage` | kernel/src/fs/elf_loader.rs:148-179 | zeroing a page and copying the overlap leaves, at each offset, the segment's byte; it is refused exactly when the file lacks bytes of the overlap |
| `Elf.LoadPage` | kernel/src/fs/elf_loader.rs:133-180 | one turn of the loop maps the page to a frame that was free and is no table, filled with the segment's bytes, with the segment's flags; all other addresses keep translation, flags and permissions |
| `Elf.HeldReads` | kernel/src/fs/elf_loader.rs:133-180 | once its pages are held, translating any address and reading memory there gives the segment's byte, and its permissions are the segment's |
| `Elf.LoadSegment` | kernel/src/fs/elf_loader.rs:118-183 | on success every address from `p_vaddr` on, `p_memsz` of them, and every other address of their pages, translates and reads the file byte in the file range and zero elsewhere, and may be used, written and executed as the segment says; frames are different and no page tables; it fails only when a page cannot be mapped or the file is too short; in every case all addresses on other pages, in all spaces, keep translation and flags |
| `Elf.SpansExact` | kernel/src/fs/elf_loader.rs:125-131 | the pages that get mapped are exactly the pages of the segment's addresses |
| `Elf.NoStrayPage` | kernel/src/fs/elf_loader.rs:125-131 | every page that gets mapped has an address of the segment, if and only if the segment is not empty or is page aligned |
| `ElfImage.LoadImage` | kernel/src/fs/elf_loader.rs:95-106 | the loop over all segments: on success every address reads the byte, and has the permissions, of the last segment that has its page; it fails only when a segment cannot be mapped or the file is too short, and in every case all addresses on pages of no segment, in all spaces, keep translation and flags |
| `ElfImage.OwnBytes` | kernel/src/fs/elf_loader.rs:95-106 | so every address of a segment reads the byte of that segment, with its permissions, when no later segment has its page |
| `ElfImage.SharedPageLoses` | kernel/src/fs/elf_loader.rs:133-154 | two segments that meet in one page: the second gets a new frame for it, and the byte of the first there reads as zero and is no longer executable |
| `SchedulerInvariant.PickHead` | kernel/src/scheduler/mlfq.rs:179-191 | while queues are consistent, the pick skips nothing: it is the head of the highest non-empty queue |
| `SchedulerInvariant.RescheduleKeeps` | kernel/src/scheduler/mod.rs:331-391 | exactly one task is Running afterwards: the head of the highest queue, or the old task when nothing is Ready |
| `SchedulerInvariant.SpawnKeeps` | kernel/src/scheduler/mlfq.rs:110-131 | a new task takes the lowest free slot and the next id and is Ready at the back of the queue of its level; nothing else changes; the invariant holds |
| `SchedulerInvariant.WakeKeeps` | kernel/src/scheduler/mod.rs:177-195 | waking a Blocked task queues it once at its level; waking any other only records the wake |
| `SchedulerInvariant.KillKeepsQueues` | kernel/src/scheduler/mlfq.rs:138-148 | a killed task is Dead and in no queue; the other entries of every queue keep their order, no other task changes, and the queues stay consistent |
| `SchedulerInvariant.StartKeeps` | kernel/src/scheduler/mod.rs:18-30 | the first task to run is the head of the highest queue; the invariant holds |
| `SchedulerInvariant.ExecKeeps` | kernel/src/scheduler/mod.rs:263-295 | the current task becomes a new program with its id, Running at level 1; no other task and no queue changes; the invariant holds |
| `SchedulerInvariant.BlockPausing` | kernel/src/scheduler/mod.rs:147-159 | between marking the current task Blocked, with its boosts, and the reschedule, the queues stay consistent |
| `SchedulerInvariant.BoostKeeps` | kernel/src/scheduler/mlfq.rs:286-297 | draining every queue into queue 0 keeps the queues consistent and loses no task |
| `SchedulerInvariant.TickKeeps` | kernel/src/scheduler/mlfq.rs:150-172 | a timer tick, with countdown, boost, charge, demotion and reschedule, keeps the invariant |
| `SchedulerInvariant.Reachable` | kernel/src/scheduler/mlfq.rs:33-297 | in every reachable state a slot is queued exactly once, at its own level, if and only if it is Ready; the current slot is the only Running one and unqueued; no quantum is used up; no push is ever dropped |
| `SchedulerInvariant.WakeReaches` | kernel/src/scheduler/mod.rs:177-195 | while kernel stacks can be allocated, ids are slots in every reachable state, so a wake by slot reaches that task |
| `SchedulerProgress.QueueZeroTurn` | kernel/src/scheduler/mlfq.rs:150-212 | a task at position `p` of queue 0 runs after exactly the rest of the current quantum plus `p` ticks |
| `SchedulerProgress.NoStarvation` | kernel/src/scheduler/mod.rs:118-125 | while only the timer acts, every Ready task becomes Running within BOOST_INTERVAL + 32 + MAX_TASKS ticks |
| `SchedulerProgress.HandOff` | kernel/src/scheduler/mlfq.rs:218-240 | when a consumer blocks on an empty ring, the next task is the Ready producer if and only if that was below level 0 or first in queue 0; the producer below level 0, or else the head of queue 0, leaves its queue, and no other queued task changes its place |
| `SchedulerSteps.ExitExact` | kernel/src/scheduler/mod.rs:208-215 | the caller ends as Dead and another task runs, if and only if some task is Ready; otherwise nothing changes at all; no third task changes |
| `SchedulerSteps.DeadForever` | kernel/src/scheduler/mlfq.rs:138-148 | in every run a task that is Dead stays Dead, and is never queued or current again |
| `SchedulerSteps.ExitEnds` | kernel/src/scheduler/mod.rs:208-215 | so over every run an exit is for good exactly when another task was Ready |
| `SchedulerSteps.BlockWaits` | kernel/src/scheduler/mod.rs:147-159 | the caller waits as Blocked and another task runs, if and only if some task is Ready |
| `SchedulerSteps.QuantumDoubles` | kernel/src/scheduler/mlfq.rs:11-18 | one tick at the top, twice as many at each level below |
| `SchedulerSteps.ChargeExact` | kernel/src/scheduler/mlfq.rs:150-212 | a tick uses one tick of the quantum of the current task; the last one sends it one level down with a fresh quantum, to the back of the queue there unless it is picked again; no third task changes |
| `SchedulerSteps.BoostEmpty` | kernel/src/scheduler/mlfq.rs:218-240 | a consumer on an empty ring goes to the top with a fresh quantum, and so does its producer, which if Ready below the top becomes first in queue 0; all other entries keep their order |
| `SchedulerSteps.BoostFull` | kernel/src/scheduler/mlfq.rs:241-256 | a producer on a full ring sends its consumer to the top in the same way, and keeps its own level |
| `SchedulerSteps.BoostSelf` | kernel/src/scheduler/mlfq.rs:257-274 | a file read or a lock lifts the caller one level with a fresh quantum; the other reasons lift no one |
| `SchedulerSteps.BoostOrder` | kernel/src/scheduler/mlfq.rs:286-297 | the lower queues join queue 0 at its back in the order of their levels |
| `Scheduler.TaskQueue.PushBack` | kernel/src/scheduler/mlfq.rs:38-44 | the circular buffer appends, unless it holds 64 entries |
| `Scheduler.TaskQueue.PushFront` | kernel/src/scheduler/mlfq.rs:45-51 | the circular buffer prepends, unless it holds 64 entries |
| `Scheduler.TaskQueue.PopFront` | kernel/src/scheduler/mlfq.rs:52-59 | the first entry leaves |
| `Scheduler.TaskQueue.Remove` | kernel/src/scheduler/mlfq.rs:63-69 | rebuilding the queue in a loop removes every occurrence and keeps the order of the rest |
| `Scheduler.MlfqScheduler.PickNext` | kernel/src/scheduler/mlfq.rs:179-191 | the two loops over levels and queue entries refine the specification |
| `Scheduler.MlfqScheduler.BoostFor` | kernel/src/scheduler/mlfq.rs:218-274 | all reasons refine the specification |
| `Scheduler.MlfqScheduler.BoostAll` | kernel/src/scheduler/mlfq.rs:286-297 | the drain loops refine the specification; no push is dropped |
| `Scheduler.MlfqScheduler.SpawnTask` | kernel/src/scheduler/mlfq.rs:110-131 | finding a slot, filling it and queueing it refine the specification; the answer is the lowest free slot, or none without one or without a stack |
| `Scheduler.MlfqScheduler.KillTask` | kernel/src/scheduler/mlfq.rs:138-148 | refines the specification: a killed task is Dead and in no queue, and all else is kept in order |
| `Scheduler.MlfqScheduler.TimerTick` | kernel/src/scheduler/mod.rs:118-125 | a whole tick with its reschedule refines the specification |
| `Scheduler.MlfqScheduler.DoReschedule` | kernel/src/scheduler/mod.rs:331-391 | requeue, pick and switch refine the specification |
| `Scheduler.MlfqScheduler.BlockCurrent` | kernel/src/scheduler/mod.rs:147-159 | block, boost and reschedule in one step refine the specification |
| `Scheduler.MlfqScheduler.WakeTask` | kernel/src/scheduler/mod.rs:177-195 | the search for the id and the wake refine the specification |
| `Scheduler.MlfqScheduler.ExitCurrent` | kernel/src/scheduler/mod.rs:208-215 | killing the current task and the reschedule refine the specification; the caller is Dead, and another runs, exactly when some task was Ready |
| `SpscRing.FullExact` | libs/beast_ring/src/lib.rs:77-86 | with wrapping indexes, the producer finds the ring full exactly when it was full at its load of the other index |
| `SpscRing.EmptyExact` | libs/beast_ring/src/lib.rs:99-106 | the consumer finds the ring empty exactly when it was empty at its load |
| `SpscRing.ProducerKeeps` | libs/beast_ring/src/lib.rs:77-96 | every single load or store of the producer keeps the invariant, whatever the consumer is doing |
| `SpscRing.ConsumerKeeps` | libs/beast_ring/src/lib.rs:99-115 | every single load or store of the consumer keeps the invariant |
| `SpscRing.RingCorrect` | libs/beast_ring/src/lib.rs:77-136 | after every interleaving at single-operation grain: popped is a prefix of pushed, the rest is the ring's content in its slots, never more than the capacity; `len` is its length; both sides never touch one slot |
| `SpscRing.PushIsSteps` | libs/beast_ring/src/lib.rs:77-96 | four undisturbed steps of the producer are the whole push; on a full ring three steps change nothing; full means that the ring holds its capacity |
| `SpscRing.PopIsSteps` | libs/beast_ring/src/lib.rs:99-115 | four undisturbed steps of the consumer are the whole pop; on an empty ring three steps change nothing; equal indexes mean that it is empty |
| `SpscRing.Ring.TryPush` | libs/beast_ring/src/lib.rs:77-96 | appends, or refuses exactly when the ring holds its capacity |
| `SpscRing.Ring.TryPop` | libs/beast_ring/src/lib.rs:99-115 | takes the oldest value, or refuses exactly when there is none |
| `SpscRing.Ring.Len` | libs/beast_ring/src/lib.rs:132-136 | wrapped subtraction is the number of values held |
| `Channel.SenderKeeps` | kernel/src/ipc/channel.rs:87-123 | every step of `try_send` and `send` keeps the invariant of flags, ring and wakes |
| `Channel.ReceiverKeeps` | kernel/src/ipc/channel.rs:134-180 | every step of `try_recv` and `recv` keeps it |
| `Channel.NoWakeForgotten` | kernel/src/ipc/channel.rs:87-224 | after every interleaving, a party blocked beside a ring it could use has a swap or a wake call of the other coming, or the wake is recorded in `awake_pending`; received is a prefix of sent |
| `Channel.WakeCanBeLost` | kernel/src/ipc/channel.rs:153-180 | a run, for every capacity, in which the receiver ends up blocked beside a value with its flag down: the re-check does not close the race as its comment says |
| `Channel.SenderWakeCanBeLost` | kernel/src/ipc/channel.rs:100-123 | a run, for every capacity, in which the sender ends up blocked beside room with its flag down: filling the ring, then a receive between the re-check and the block |
| `Channel.LostStaysLost` | kernel/src/ipc/channel.rs:153-224 | once lost, no sequence of steps wakes the receiver, short of the scheduler resuming it for lack of Ready tasks |
| `Channel.SenderStaysLost` | kernel/src/ipc/channel.rs:100-224 | once lost, no sequence of steps wakes the sender, short of the scheduler resuming it |
| `Channel.ReceiverWokenExact` | kernel/src/ipc/channel.rs:157-208 | a receiver blocked beside a value runs again after the sender's next two steps if and only if its flag is up or the wake call is under way |
| `Channel.SenderWokenExact` | kernel/src/ipc/channel.rs:100-224 | the same for a sender blocked beside room |
| `Channel.ReceiverBlockExact` | kernel/src/ipc/channel.rs:157-180 | the condition at the call of `block_current`: for every run in which the receiver stays blocked, its wake is lost at the end if and only if its flag was down and no wake call was under way at the call; beside a value, the sender's next two steps wake it if and only if it is not |
| `Channel.ReceiverBlockLost` | kernel/src/ipc/channel.rs:157-180 | if the flag was down and no wake call was under way, no run ever wakes the receiver, short of the scheduler resuming it |
| `Channel.SenderBlockExact` | kernel/src/ipc/channel.rs:100-123 | the same condition for the sender |
| `Channel.SenderBlockLost` | kernel/src/ipc/channel.rs:100-123 | if it holds, no run ever wakes the sender, short of the scheduler resuming it |
| `ChannelCalls.SendReturns` | kernel/src/ipc/channel.rs:87-123 | after every interleaving, a send returns only with its value the last one pushed; only `try_send` returns without, exactly when its push found the ring full, and then nothing has changed |
| `ChannelCalls.RecvReturns` | kernel/src/ipc/channel.rs:134-180 | a receive returns only past a pop, which takes the oldest value not yet received; only `try_recv` returns without, when it found the ring empty, and then nothing has changed |
| `ChannelCalls.TryNeverBlocks` | kernel/src/ipc/channel.rs:87-152 | in every run, a side that makes only `try_send` or `try_recv` calls never raises its flag and never blocks, whatever the other side does |
| `ChannelCalls.TrySendIsShort` | kernel/src/ipc/channel.rs:87-97 | `try_send` returns after at most six steps of its own, and no step of the other side adds one |
| `ChannelCalls.TryRecvIsShort` | kernel/src/ipc/channel.rs:134-152 | the same for `try_recv` |
| `Heap.AllocateKeeps` | kernel/src/memory/heap.rs:54-92 | null if and only if no listed block has aligned room for the size; otherwise the lowest room in the first block that has any, of the size and alignment asked for, inside the heap, apart from all live allocations and free blocks, with less lost than the alignment plus the smallest block |
| `Heap.FitsExact` | kernel/src/memory/heap.rs:62-68 | the test of the search holds exactly when some aligned address leaves room for the size in the block, and the address taken is the lowest such |
| `Heap.AlignExact` | kernel/src/memory/heap.rs:55 | the alignment used is the larger of the one asked for and the header's, and a multiple of both |
| `Heap.SizeExact` | kernel/src/memory/heap.rs:56-59 | the size used is the least multiple of the alignment that holds what was asked for and holds a header |
| `Heap.FreeThenAllocate` | kernel/src/memory/heap.rs:54-105 | a request of the layout just freed is not refused: it gets the same address |
| `Heap.DeallocateKeeps` | kernel/src/memory/heap.rs:94-105 | all bytes of an allocation return to the list and the heap stays sound |
| `Heap.RunKeeps` | kernel/src/memory/heap.rs:46-105 | after every valid run, live and free are pairwise apart, inside and aligned, free blocks can hold their header, and free, live and lost bytes, the alignment gaps and short tails of the blocks used, equal the heap's size |
| `Heap.TakenOk` | kernel/src/memory/heap.rs:60-85 | the tail kept when a block is split lies behind the part handed out and can hold its header |
| `Heap.WasteExact` | kernel/src/memory/heap.rs:65-85 | of a block used, what goes out, what goes back to the list, the alignment gap and a tail too short to split are all of it; the last two are less than the alignment plus the smallest block |
| `Heap.SpliceLinked` | kernel/src/memory/heap.rs:70-88 | cutting a block out of the linked list, or putting its tail in its place, by one write, is the splice of the list of blocks |
| `Heap.HeapAllocator.AllocateBlock` | kernel/src/memory/heap.rs:54-92 | the search loop over linked nodes answers the first room of the list, and null exactly when no block has room; the list is spliced there |
| `Heap.HeapAllocator.DeallocateBlock` | kernel/src/memory/heap.rs:94-105 | pushing the freed node at the head refines the specification |
| `Files.SaveExact` | kernel/src/fs/file_ops.rs:25-51 | saving fails exactly when the store is limited and full; the owner reads back their own data if and only if they may read and nothing else is stored under its hash; every other path reads as before |
| `Files.CollisionLoses` | kernel/src/storage/hash.rs:13-21 | two different contents that agree in the 32 bytes kept, such as nothing and one zero byte: the owner of the second file reads the first |
| `Files.CopyExact` | kernel/src/fs/file_ops.rs:104-130 | a copy succeeds exactly when its user can read the source, stores no byte, reads as the source, and changes no other path |
| `Files.MoveExact` | kernel/src/fs/file_ops.rs:65-102 | a move succeeds exactly when its user may write the file; every reader reads at the new path what they read at the old one, which then leads nowhere; no third path changes; the store is untouched |
| `Files.DeleteExact` | kernel/src/fs/file_ops.rs:132-156 | succeeds exactly when permitted; the path leads nowhere; copies of the file read as before; the object goes exactly when no other token holds it |
| `Files.SaveLists` | kernel/src/fs/file_ops.rs:25-51 | a saved file is listed among the children of the directory it lies in, and its token has its path, owner, size and permissions; no other list changes |
| `Files.CopyLists` | kernel/src/fs/file_ops.rs:104-130 | so is a copy, which belongs to the one who made it |
| `Files.MoveLists` | kernel/src/fs/file_ops.rs:65-102 | a moved file is listed by the directory it lies in now and no longer by the old one; no other list changes |
| `Files.DeleteLists` | kernel/src/fs/file_ops.rs:132-156 | a deleted file is no longer listed by its directory; no other list changes |
| `Files.PutKeeps` | kernel/src/storage/cas.rs:48-78 | a put counts one more reference or stores the object, keeps the byte total, and changes no other object |
| `Files.DropReference` | kernel/src/storage/cas.rs:101-113 | dropping the reference of a revoked token keeps counts exact and every other token's object stored |
| `Files.RunKeeps` | kernel/src/fs/file_ops.rs:25-156 | after every run of saves, reads, copies, moves and deletes: counts equal registered tokens, bytes add up, cached paths and tokens agree, no read is Corrupted, nothing is garbage at any time, and the limit holds |
| `FileRuns.StepRefines` | kernel/src/fs/file_ops.rs:25-156 | an operation that has room does to a plain map from paths to owner, permissions and data what it should, if and only if what it saves does not collide with other stored data; one without room changes nothing |
| `FileRuns.ReadRefines` | kernel/src/fs/file_ops.rs:53-63 | reading is reading the plain map |
| `FileRuns.RunRefines` | kernel/src/fs/file_ops.rs:25-156 | after every run whose saved contents have different hashes, every reader reads at every path what the same operations on the plain map give, but for saves that ran out of space |
| `FileRuns.EmptyRefines` | kernel/src/fs/file_ops.rs:17-156 | the same from an empty file system and an empty map |
| `Files.OrphansExact` | kernel/src/fs/file_ops.rs:25-130 | an operation leaves a registered token no path leads to if and only if it overwrites a cached path |
| `Files.OverwriteOrphans` | kernel/src/fs/file_ops.rs:25-51 | two saves to one path, from an empty file system, leave the first token registered with no path to it |
| `Files.OrphanStays` | kernel/src/fs/file_ops.rs:25-156 | a token no path leads to is never revoked and keeps its object stored through every later run |
| `FileStore.HashData` | kernel/src/storage/hash.rs:13-21 | the loop keeps the first 32 bytes, padded with zeros |
| `FileStore.ContentStore.GarbageCollect` | kernel/src/storage/cas.rs:126-149 | only garbage goes, the byte total stays right, and garbage stays only when enough was freed |
| `FileStore.ContentStore.PutData` | kernel/src/storage/cas.rs:48-78 | refines the put of the specification: the collection it may run frees nothing |
| `FileStore.ContentStore.DecRef` | kernel/src/storage/cas.rs:101-113 | refines the specification |
| `FileStore.PathCache.UpdatePath` | kernel/src/fs/path_cache.rs:81-93 | moves one path in both maps, or does nothing when it is not cached |
| `FileStore.PathCache.Remove` | kernel/src/fs/path_cache.rs:67-78 | removes one path from both maps |
| `FileStore.FileSystem.SaveFile` | kernel/src/fs/file_ops.rs:25-51 | the updates in sequence of store, registry, cache and parent refine the specification and keep the invariant |
| `FileStore.FileSystem.ReadFile` | kernel/src/fs/file_ops.rs:53-63 | refines the specification; the store only notes the time |
| `FileStore.FileSystem.MoveFile` | kernel/src/fs/file_ops.rs:65-102 | refines the specification and keeps the invariant |
| `FileStore.FileSystem.CopyFile` | kernel/src/fs/file_ops.rs:104-130 | refines the specification and keeps the invariant |
| `FileStore.FileSystem.DeleteFile` | kernel/src/fs/file_ops.rs:132-156 | refines the specification and keeps the invariant |
| `Paths.NormalizeCanonical` | kernel/src/fs/path_cache.rs:167-190 | the output is canonical, and a path is its own normal form if and only if it is canonical |
| `Paths.NormalizeIdempotent` | kernel/src/fs/path_cache.rs:167-190 | normalizing twice is normalizing once |
| `Paths.NormalizeFront` | kernel/src/fs/path_cache.rs:167-190 | normalizing the front of a path first makes no difference |
| `Paths.DotDot` | kernel/src/fs/path_cache.rs:167-190 | `..` leads to the parent, and at the root to the root |
| `Paths.Dot` | kernel/src/fs/path_cache.rs:167-190 | `.` and an empty part lead nowhere |
| `Paths.Down` | kernel/src/fs/path_cache.rs:167-225 | any other name leads below: it is the base name, and the normal form of the path before it is the parent |
| `Paths.FirstPart` | kernel/src/fs/path_cache.rs:167-190 | the first part stands below the root |
| `Paths.JoinExact` | kernel/src/fs/path_cache.rs:193-201 | joining is normalizing the two with a slash between, also when the base ends in one |
| `Paths.ParentBasename` | kernel/src/fs/path_cache.rs:203-225 | parent drops the last component and base name is it |
| `Paths.JoinParentBasename` | kernel/src/fs/path_cache.rs:193-225 | off the root, a path's normal form is the join of its parent and base name |
| `Paths.CwdCanonical` | kernel/src/syscall/mod.rs:506-516 | from the root, the working directory stays canonical under every run of changes |
| `Paths.ResolveExact` | kernel/src/syscall/mod.rs:586-596 | in a canonical working directory the shortcut for `.` agrees with the general case |
| `Paths.NormalizePath` | kernel/src/fs/path_cache.rs:167-190 | the loop over parts with a component stack, and the loop that writes it out, compute the normal form, which is canonical |
| `Editor.PressRefines` | userland/editor/src/main.rs:172-334 | a key refused for capacity changes nothing; any other acts on one flat text at the cursor's offset: insert, newline insert, delete, one left, one right, or to the line above or below at the smaller of the column and its length |
| `Editor.SessionRefines` | userland/editor/src/main.rs:172-334 | a whole session of keys refines, on the flat text, the session of those keys that are not refused |
| `Editor.EnterBackspace` | userland/editor/src/main.rs:287-334 | backspace undoes an enter if and only if the whole line is shorter than a row |
| `Editor.FullRow` | userland/editor/src/main.rs:66-99 | every file of one line that fills a row is loaded as that line; enter then splits it and backspace does not join it |
| `Editor.InsertBackspace` | userland/editor/src/main.rs:275-314 | backspace undoes an insert |
| `Editor.SaveLoad` | userland/editor/src/main.rs:66-99 | loading what was saved gives back the same lines |
| `Editor.SessionSaves` | userland/editor/src/main.rs:66-99 | after any session, loading what is saved gives back the same lines |
| `Editor.LoadOk` | userland/editor/src/main.rs:66-99 | loading any file leaves a valid editor, and saving that and loading it again changes nothing |
| `EditorBuffer.Buffer.InsertAt` | userland/editor/src/main.rs:275-285 | the shift loop in the 2-D array refines the insert |
| `EditorBuffer.Buffer.HandleBackspace` | userland/editor/src/main.rs:287-314 | the byte shift, the copy into the row above and the row shift refine the backspace |
| `EditorBuffer.Buffer.HandleEnter` | userland/editor/src/main.rs:316-334 | the row shift and the byte copy refine the enter |
| `EditorBuffer.Buffer.MoveLeft` | userland/editor/src/main.rs:188-195 | refines the step to the left |
| `EditorBuffer.Buffer.MoveRight` | userland/editor/src/main.rs:197-204 | refines the step to the right |
| `EditorBuffer.Buffer.MoveUp` | userland/editor/src/main.rs:172-178 | refines the step to the line above |
| `EditorBuffer.Buffer.MoveDown` | userland/editor/src/main.rs:180-186 | refines the step to the line below |
| `EditorBuffer.Buffer.LoadFile` | userland/editor/src/main.rs:66-99 | the byte loop cuts long lines, stops at the last row, and otherwise leaves the lines of the file |
| `EditorBuffer.Buffer.Save` | userland/editor/src/main.rs:336-352 | writes every line followed by a newline |
| `Fat32.EndsExact` | kernel/src/fs/fat32.rs:275-294 | a cluster chain ends if and only if it is acyclic |
| `Fat32.ClusterChain` | kernel/src/fs/fat32.rs:275-294 | on an acyclic chain the loop ends with all its clusters in order |
| `Fat32.FatEntryExact` | kernel/src/fs/fat32.rs:257-272 | an entry is the low 28 bits of four bytes in a row of the table, whatever sector they lie in |
| `Fat32.LittleEndianDigits` | kernel/src/fs/fat32.rs:257-272 | the four bytes are the digits of the entry to the base 256, the first one the lowest |
| `Fat32.ClustersInRow` | kernel/src/fs/fat32.rs:252-254 | the data area starts with cluster 2, and each cluster starts where the one before ends |
| `Fat32.ClustersApart` | kernel/src/fs/fat32.rs:252-254 | different clusters share no sector |
| `Fat32.FileSlice` | kernel/src/fs/fat32.rs:252-254 | a cluster is the slice of the concatenated clusters at its place |
| `Fat32.InsideCluster` | kernel/src/fs/fat32.rs:553-560 | the sectors one turn of the read loop asks for lie inside the cluster |
| `Fat32.ReadPiece` | kernel/src/fs/fat32.rs:553-562 | the bytes taken from the sectors read are the bytes of the cluster from that offset on |
| `Fat32.ReadsConcatenate` | kernel/src/fs/fat32.rs:528-568 | reads in a row, of any sizes, get what one long read gets |
| `Fat32.File.ReadClusters` | kernel/src/fs/fat32.rs:545-564 | the cluster loop copies consecutive bytes of the concatenated clusters and leaves the rest of the buffer |
| `Fat32.File.Read` | kernel/src/fs/fat32.rs:528-568 | the next bytes of the file, as many as the buffer holds or are left, for every position, size and chain; the position advances by that many |

## Left out

- Assembly, context restore, interrupt and segment tables, TLB flushes, port and disk input/output, console, drawing and boot code: hardware.
- Weak memory: the ring and the channel are proved for sequentially consistent interleavings only.
- The recursive page-table slot 510 and its set-up: translations through it are excluded from the page-table theorems.
- The physical-to-virtual offset is taken as the identity.
- Vmm.WalkHitsWrite: a data page has no entries in this model, so below a huge page on data the walks of `handle_fault` and `unmap_page` find nothing there, and a write of theirs into data is not shown.
- Machine.VirtualMemory.HandleFault: a write to a frame that holds no table is not kept, for the same reason.
- Machine.VirtualMemory.UnmapPage: an unmap below a huge page on data fails in the model, for the same reason.
- Elf.LoadSegment: 64-bit overflow of segment addresses is excluded by a precondition; the parsing of headers is not modelled, so `ElfImage.LoadImage` is given the segments to load.
- Heap.RunKeeps: addresses are unbounded, so an allocation that would pass 2^64 is not modelled.
- Channel.WakeCanBeLost: both slots are registered and task ids are slots; `SchedulerInvariant.WakeReaches` proves the latter while stack allocation succeeds.
- Scheduler.MlfqScheduler.SpawnTask: the level is already capped, and stacks and names are not modelled; the user variants answer the id instead of the slot; a user task with a level above 5 or a block reason with a slot above 63, which the source would panic on, are excluded.
- Files.RunKeeps: token ids are fresh, only file tokens exist, so sharing, folders and expiry are not modelled; Merkle hashes, whose results callers ignore, neither.
- FileStore.PathCache.UpdatePath: locks are not modelled, and neither is subtree invalidation.
- EditorBuffer.Buffer.LoadFile: reads succeed and the editor is new; the copy of the file name, which panics on names over 63 bytes, is not modelled.
- Selection, clipboard, mouse and scrolling of the editor.
- UserPages.BootFrames: mappings of a frame that the caller gives are excluded, since that frame may be any; frames given back by an unmap are not freed in these runs.
- Fat32.File.Read: sector reads succeed; partition and volume headers, directories and long names are not modelled.
- `kernel/src/io_uring/mod.rs`, `kernel/src/ipc/spsc_with_boost.rs`, `kernel/src/fs/ring_transfer.rs`: other clients of the same structures.
- PE and Mach-O loaders, `sys_brk` and other system-call wrappers, pressure, capabilities, virtual file system dispatch, tar and ramfs: they would add easy members.
