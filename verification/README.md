# Cyllor in Dafny

A Dafny model of the core of the Cyllor kernel, with proofs of what its memory system, its scheduler and its smaller state
machines promise. `dafny verify dfyconfig.toml` checks all of it.

## What is modelled

- **Physical memory** (`Pmm.dfy`, on the 64-bit words of `Bits.dfy`): the bitmap allocator refines a set of free frames.
- **Page tables** (`PageTable.dfy`, `Paging.dfy`): four-level tables stored as little-endian bytes in frames taken from the
  allocator. Under the invariant that the tables form a tree of distinct frames in use, the tree refines a flat map from page
  number to frame and attributes.
- **Virtual memory areas** (`Vmm.dfy`): the interval map refines a function from addresses to protection, flags, offset and name.
  The offset is compared as stored, because the code copies it unshifted into right remnants.
- **Memory system calls** (`MapRange.dfy`, `Mmap.dfy`, `ProcessMemory.dfy`): `mmap`, `munmap`, `mprotect` and `brk` drive all
  three structures, with rollback when frames run out. A process invariant says which page owns which frame.
- **Shared memory** (`Shm.dfy`, `SharedMemory.dfy`): the segment and attachment tables, and `shmat`, `shmdt` and `munmap` on pages,
  areas and records together.
- **Copying to and from user memory** (`UserCopy.dfy`), with demand paging.
- **Scheduler** (`Scheduler.dfy`, `SmpScheduler.dfy`, `Fairness.dfy`): a step system for any number of CPUs with one step for each
  section of the code that runs under a lock or as one atomic update, the class that implements it, and waiting times on one CPU.
- **File system** (`Ext4Read.dfy`, `Ext4Lookup.dfy`), **initial stack** written through the page tables (`ElfStack.dfy`),
  **line discipline** (`Pty.dfy`), **sockets** (`Sockets.dfy`), **signals** (`Signals.dfy`), **timers** (`TimerFd.dfy`).

`Common.dfy`, `Errno.dfy`, `Arithmetic.dfy` and `LittleEndian.dfy` hold what several of these share.

Code that updates things in place is a class with fields, methods and loops; each method is proved against a function or a relation
on values, and the lemmas are about those. Frames and pages are numbers; byte addresses appear where the code computes with them.
Clocks, random bytes, file contents and the choice of file descriptor numbers are parameters. Outside the scheduler a system call
runs without interleaving.

Preconditions the code relies on and does not check are preconditions here: virtual addresses are below 2^48; a frame is freed only
while in use; memory reached through a user page is neither free nor a page table; the memory of a shared segment is in use and no
private page leads to it; a new socket descriptor is not the number of a socket that lives on through a duplicate; a process's heap
does not overlap attached shared memory.

## Where the code does not keep its promise

Each of these has a lemma or contract with the exact condition.

- `PROT_NONE` does not take reading away: `to_pte` never looks at `readable`, so the entry is the one for `PROT_READ`. Any access
  that is asked for includes reading; reading is granted as that says iff the protection is not `PROT_NONE`, and writing and
  executing always are: `ProcessMemory.ProtNoneReadable`, `ProcessMemory.ProtectionExact`.
- `do_mmap` and `do_brk` can report success with the last page unmapped, because the result of `map_page` is ignored. For a range of
  n pages and the tables present, let need(k) be k plus the tables the first k pages lack. The call fails iff the free frames are at
  most need(n - 1), and succeeds with a hole iff they are more than that and fewer than need(n): `MapRange.RangeDecided`,
  `MapRange.LastFrameTaken`, `MapRange.RangeSucceeds`, `MapRange.LastFrameLeavesHole`, and the contracts of `DoMmap` and `DoBrk`.
  In exactly that case the frame taken for the last page is lost: it is neither free, nor a table, nor mapped
  (`MapRange.FrameLost`). A page fault in `copy_to_user` loses its frame in the same way (`UserCopy.FaultLoses`).
- The wakeup of a sleeping thread is lost iff its CPU has not switched to another thread between `block_current_until` marking it
  Blocked and the timer tick waking it: the tick looks for it in the run queues only, where a switch puts it. This happens when
  nothing else is runnable until the deadline, and also when the tick comes between the locked sections of `block_current_until`
  although another thread is ready. A thread that becomes runnable and is switched to before the deadline saves the wakeup. Once
  lost, the thread stays Blocked until it registers again or a futex wakes it: `Scheduler.WokenIffSwitched`,
  `Scheduler.LostIffNotSwitched`, `Scheduler.LostWakeup`, `Scheduler.LostBeforeSwitch`, `Scheduler.WokenAfterLateSwitch`,
  `Scheduler.LostForever`.
- A futex can throw a thread away. `wake_tid` makes a Blocked thread Ready also while it is still the thread of its CPU, and
  `schedule` requeues only Running and Blocked threads: the next switch drops it, and it is gone for good. A thread that is neither
  killed nor woken in this way is never lost: `Scheduler.WokenOnCpuIsLost`, `Scheduler.NeverLost`, `Scheduler.LostByFutexWake`.
- `Vmm::map` and `mprotect` on an empty range lose the part of an area to the right of the address: `Vmm.VmaMap.Map` and
  `Vmm.VmaMap.Mprotect` say exactly when, `Vmm.EmptyMapLoses` and `Vmm.EmptyProtectLoses` show it. The caller that can send one is
  `do_mprotect` with a length within a page of the word size, whose rounding wraps to zero when overflow checks are off:
  `ProcessMemory.Process.DoMprotectWrapped`.
- A shared segment can be freed while it is mapped. Attachments are recorded per thread, the areas are shared by the threads of a
  process, and a thread's exit drops its records only. The exit keeps every shared page inside an attachment of another thread,
  and so its segment alive, iff none of them lies in attachments of the exiting thread alone: `SharedMemory.ExitKeepsLinked`,
  `SharedMemory.SegmentAlive`, `SharedMemory.ThreadExitFreesSegment`. A child of `fork` has the areas without any record, but its
  pages are copies: `SharedMemory.ForkedLinked`.
- `do_shmat` accepts an unaligned address. Its first page then does not count as shared, and `munmap` gives memory of the kernel heap
  to the frame allocator; every page counts as shared iff the address is aligned or its page was shared already:
  `SharedMemory.AttachRecognised`, `SharedMemory.UnalignedAttachIsFreed`.
- An absolute `timerfd` deadline in the past is miscounted: `TimerFd.FirstReadExact`, `TimerFd.PastDeadlines`.
- Reusing the number of a socket that lives on through a duplicate breaks peering: `Sockets.AllocKeeps`, and
  `Sockets.ReusedOwnerBreaksPeering` for `socketpair`, `dup`, `close` and `socket` in a row.
- The free counter of the allocator drifts when a frame is freed twice or the memory map covers it twice:
  `Pmm.BitmapAllocator.FreePage`, `Pmm.BitmapAllocator.FreedTwice`, `Pmm.BitmapAllocator.Init`.
- A signal's return restores the registers, sp and pc but not the status register, which stays as the handler left it:
  `Signals.SignalTable.DeliverThenReturn`.

## Model

| member | source | states |
|---|---|---|
| Pmm.BitmapAllocator.constructor | kernel/src/mm/pmm.rs:16-22 | the initial bitmap has no free frame |
| Pmm.BitmapAllocator.MarkFree | kernel/src/mm/pmm.rs:24-29 | the frame joins the free set; the counter runs ahead exactly if it was free already |
| Pmm.BitmapAllocator.AllocPage | kernel/src/mm/pmm.rs:31-41 | returns the lowest free frame and removes exactly it; fails iff none is free |
| Pmm.BitmapAllocator.FreePage | kernel/src/mm/pmm.rs:44-50 | the frame joins the free set; the counter drifts iff the frame was free already |
| Pmm.BitmapAllocator.FreedTwice | kernel/src/mm/pmm.rs:44-50 | freeing a used frame twice frees it once and counts it twice |
| Pmm.BitmapAllocator.MarkUsed | kernel/src/mm/pmm.rs:95-107 | removes exactly that frame and keeps the counter's accuracy, also for addresses out of range |
| Pmm.BitmapAllocator.ReleaseRegion | kernel/src/mm/pmm.rs:64-84 | one region frees its whole pages below the limit, and skips what lies above |
| Pmm.BitmapAllocator.Init | kernel/src/mm/pmm.rs:53-92 | the free set is what the memory map covers; the counter is exact iff no frame is covered twice |
| Pmm.LowestClearBit | kernel/src/mm/pmm.rs:31-38 | the first word that is not full and its lowest clear bit give the least free frame |
| Pmm.NoClearBit | kernel/src/mm/pmm.rs:31-41 | all words full means no frame is free |
| Pmm.StaysAllocated | kernel/src/mm/pmm.rs:31-50 | over every run, a frame handed out stays out of the free set until released |
| Pmm.NoDoubleHandout | kernel/src/mm/pmm.rs:31-50 | over every run, no frame is handed out twice without a release in between |
| Bits.TrailingZeros | kernel/src/mm/pmm.rs:34 | the position of the lowest set bit of a non-zero word |
| PageTable.PageEntryFields | kernel/src/arch/aarch64/paging.rs:320-353 | a page descriptor is valid and decodes to its frame and the permissions asked for, except that reading is always granted |
| PageTable.UserAccess | kernel/src/arch/aarch64/paging.rs:320-353 | by the access bits, user mode may read exactly the user pages, and write and execute exactly those user pages that were asked to allow it |
| PageTable.TableEntryFields | kernel/src/arch/aarch64/paging.rs:101-112 | a table descriptor is valid and decodes to its table |
| PageTable.EntryReadBack | kernel/src/arch/aarch64/paging.rs:93-118 | an entry stored in a table reads back, and the other 511 entries are unchanged |
| PageTable.MissingBelow | kernel/src/arch/aarch64/paging.rs:159-166 | where a table is missing on the way to a page, all tables below it are missing too |
| PageTable.AddTable | kernel/src/arch/aarch64/paging.rs:95-109 | linking a fresh zeroed table keeps the tree and changes no translation |
| PageTable.SetLeaf | kernel/src/arch/aarch64/paging.rs:113-117 | writing a leaf entry keeps the tree and changes the translation of exactly one page |
| PageTable.WriteData | kernel/src/arch/aarch64/paging.rs:227-244 | writing a frame that is not a table changes no translation |
| Paging.NewAddressSpace | kernel/src/arch/aarch64/paging.rs:71-74 | an empty address space takes one frame, zeroed, as its root and maps nothing; fails iff no frame is free, changing nothing |
| Paging.AddressSpace.LinkNewTable | kernel/src/arch/aarch64/paging.rs:95-109 | a fresh table never is the root, changes no translation, and fails only when frames are exhausted |
| Paging.AddressSpace.WalkCreate | kernel/src/arch/aarch64/paging.rs:85-112 | ends at the page's leaf table, creating only tables of that page's path and no translation |
| Paging.AddressSpace.MapPage | kernel/src/arch/aarch64/paging.rs:77-119 | on success exactly one page's translation changes; on failure none does and no frame is left |
| Paging.AddressSpace.UnmapPage | kernel/src/arch/aarch64/paging.rs:149-180 | removes exactly one translation and returns its frame, and nothing if there was none |
| Paging.AddressSpace.TranslatePage | kernel/src/arch/aarch64/paging.rs:197-222 | agrees with the flat map on every page |
| Paging.AddressSpace.Translate | kernel/src/arch/aarch64/paging.rs:197-224 | agrees with the flat map on every address |
| Paging.GrewCount | kernel/src/arch/aarch64/paging.rs:77-119 | frames are conserved: each one that left the free set is data taken or a new table |
| Paging.MapSucceeds | kernel/src/arch/aarch64/paging.rs:77-119 | `map_page` succeeds iff there are frames for the tables the page lacks |
| Vmm.VmaMap.RemoveRange | kernel/src/mm/vmm.rs:161-184 | erases exactly the range; areas stay keyed by start, disjoint and non-empty through every split |
| Vmm.VmaMap.Map | kernel/src/mm/vmm.rs:78-83 | overwrites exactly the range; an empty range is harmless iff its address is unmapped |
| Vmm.EmptyMapLoses | kernel/src/mm/vmm.rs:78-83 | an empty map at 4096 inside [0, 8192) leaves 4096 unmapped |
| Vmm.VmaMap.Unmap | kernel/src/mm/vmm.rs:92-94 | erases exactly the range |
| Vmm.VmaMap.Mprotect | kernel/src/mm/vmm.rs:97-125 | changes the protection of exactly the mapped addresses of the range; an empty range is harmless iff no area lies across it |
| Vmm.EmptyProtectLoses | kernel/src/mm/vmm.rs:97-125 | an empty mprotect at 4096 inside [0, 8192) leaves 4096 unmapped |
| Vmm.ProtectMembers | kernel/src/mm/vmm.rs:105-124 | reprotecting one area leaves its parts before and after the range with the old protection, its part inside with the new one, and every other area as it was |
| Vmm.FindAgrees | kernel/src/mm/vmm.rs:128-133 | `find` returns an area iff the address is mapped, and then the one the reference function gives |
| Vmm.CutOutside | kernel/src/mm/vmm.rs:168-183 | cutting one area removes exactly its part inside the range from the reference function |
| Vmm.ProtectReprotect | kernel/src/mm/vmm.rs:105-124 | one step of the loop changes nothing that the remaining steps would not change |
| MapRange.MapFresh | kernel/src/mm/mmap.rs:140-180 | one iteration takes one frame, zeroes it, maps it unless tables run out, and fills it with its page of the file |
| MapRange.FilePageBytes | kernel/src/mm/mmap.rs:161-177 | byte j of a page mapped at a file offset is the file's byte there, or zero past its end |
| MapRange.MapPages | kernel/src/mm/mmap.rs:140-181 | all pages taken in order, or everything rolled back when the allocator ran dry; the free frames decide which, and whether the last page is mapped |
| MapRange.RollBack | kernel/src/mm/mmap.rs:144-152 | every frame taken goes back exactly once, also where the mapping had not taken; the pages end unmapped |
| MapRange.TraceResult | kernel/src/mm/mmap.rs:140-180 | a run of the loop maps distinct frames in order, each holding its page of the file or zeros, and touches nothing else |
| MapRange.RollsBack | kernel/src/mm/mmap.rs:144-153 | after the rollback the allocator differs only by retained tables, and translations outside the range are as before |
| MapRange.RollBackRestores | kernel/src/mm/mmap.rs:144-153 | over a range that was unmapped, failure restores every translation, and the frames missing from the allocator are new tables |
| MapRange.TraceAccounts | kernel/src/mm/mmap.rs:140-158 | frames are conserved after every iteration: what left the free set is data or a new table of the range |
| MapRange.RangeSucceeds | kernel/src/mm/mmap.rs:140-158 | all pages get mapped iff there are frames for them and for the tables they lack |
| MapRange.LastFrameTaken | kernel/src/mm/mmap.rs:140-158 | the call reports success iff the free frames exceed what all pages but the last need |
| MapRange.RangeDecided | kernel/src/mm/mmap.rs:140-158 | the three outcomes by the number of free frames: ENOMEM, success with the last page unmapped, success |
| MapRange.LastFrameLeavesHole | kernel/src/mm/mmap.rs:157-158 | with one free frame and a table missing, the call succeeds and the page stays unmapped |
| MapRange.FrameLost | kernel/src/mm/mmap.rs:156-158 | after a success the frame taken for the last page is neither free, nor a table, nor mapped iff the free frames reach that page but not its tables |
| Mmap.UnmapPages | kernel/src/mm/mmap.rs:234-241 | removes exactly the range's translations and frees exactly the frames of its unshared pages |
| Mmap.CollectPages | kernel/src/mm/mmap.rs:268-272 | lists the frames of the range iff all its pages are mapped |
| Mmap.RemapPages | kernel/src/mm/mmap.rs:274-277 | changes the attributes of exactly the range; no frame or table is taken and every frame is kept |
| Mmap.OwnedAfterUnmap | kernel/src/mm/mmap.rs:234-241 | unmapping keeps the ownership of frames |
| Mmap.OwnedAfterMap | kernel/src/mm/mmap.rs:140-158 | mapping fresh frames keeps the ownership of frames |
| Mmap.OwnedAfterRollBack | kernel/src/mm/mmap.rs:144-152 | rolling back keeps the ownership of frames |
| ProcessMemory.AlignUp | kernel/src/mm/mmap.rs:15-17 | the least page boundary not below the value |
| ProcessMemory.ProtNoneReadable | kernel/src/mm/mmap.rs:19-30 | a PROT_NONE page has the descriptor of a PROT_READ page and user mode may read it |
| ProcessMemory.ProtectionExact | kernel/src/mm/mmap.rs:19-30 | for every protection, writing and executing are granted as asked, and reading is iff it is not PROT_NONE |
| ProcessMemory.Area | kernel/src/mm/mmap.rs:186-198 | the recorded area is never taken for shared memory |
| ProcessMemory.Process.SharedFlags | kernel/src/mm/mmap.rs:216-232 | flags exactly the pages of shared segments |
| ProcessMemory.Process.DoMunmap | kernel/src/mm/mmap.rs:204-249 | errors change nothing; success unmaps the range, frees its unshared frames once, and erases its areas |
| ProcessMemory.Process.DoMprotect | kernel/src/mm/mmap.rs:251-284 | all or nothing: EINVAL iff a page is unmapped; otherwise the areas get the protection and the pages its descriptor, readable in any case, and no frame moves |
| ProcessMemory.Process.DoMprotectWrapped | kernel/src/mm/mmap.rs:251-284 | a length that rounds past the word size succeeds without touching a page; the areas stay as they are iff none lies across the address |
| ProcessMemory.Process.DoMmap | kernel/src/mm/mmap.rs:82-202 | refuses exactly the malformed requests; otherwise pages with the file's bytes or zeros and the area, or ENOMEM with everything rolled back; the free frames decide which, and whether the last page is mapped |
| ProcessMemory.Process.DoBrk | kernel/src/mm/mmap.rs:286-347 | grows with zeroed pages or not at all, the free frames deciding which and whether the last page is mapped; shrinks by freeing the pages above; keeps the heap area in step |
| ProcessMemory.Process.UpdateHeapVma | kernel/src/mm/mmap.rs:36-52 | the heap area is replaced by one that ends at the new break |
| ProcessMemory.Process.GrowHeap | kernel/src/mm/mmap.rs:311-332 | growing maps fresh pages that no other page shares, or is undone |
| ProcessMemory.Process.ShrinkHeap | kernel/src/mm/mmap.rs:333-341 | shrinking frees exactly the frames of the pages above the new end |
| UserCopy.CopyToUser | kernel/src/syscall/fs.rs:193-227 | ends on every state; lays exactly the bytes over user memory, adding zeroed pages with frames of their own; succeeds iff frames suffice for the missing pages and tables |
| UserCopy.WriteMapped | kernel/src/arch/aarch64/paging.rs:227-244 | lays the bytes over mapped memory only; fails iff a page of the range is unmapped, after writing the bytes before it |
| UserCopy.CopyFromUser | kernel/src/syscall/fs.rs:230-256 | reads exactly the bytes of the range; EFAULT iff a page is unmapped |
| UserCopy.RoundTrip | kernel/src/syscall/fs.rs:193-256 | what was written is read back, across page boundaries |
| UserCopy.Fault | kernel/src/syscall/fs.rs:212-223 | a miss consumes a free frame and changes no byte already written |
| UserCopy.OverlayReads | kernel/src/syscall/fs.rs:193-256 | bytes laid over a range are what reading it gives |
| UserCopy.FaultEnough | kernel/src/syscall/fs.rs:212-223 | a page fault neither makes nor breaks the supply for the rest of the range |
| UserCopy.FaultLoses | kernel/src/syscall/fs.rs:217-223 | a page fault loses the frame it takes iff the free frames do not reach the tables of its page |
| ProcessMemory.Process.CopyToUser | kernel/src/syscall/fs.rs:193-227 | demand paging keeps the process invariant, also over shared areas |
| Scheduler.PickLocal | kernel/src/sched/scheduler.rs:87-95 | the first of the Ready threads with least virtual runtime |
| Scheduler.PickVictim | kernel/src/sched/scheduler.rs:101-108 | the last of the other CPUs with the most Ready threads |
| Scheduler.PickLast | kernel/src/sched/scheduler.rs:116-121 | the last Ready thread |
| Scheduler.LeastLoadedCpu | kernel/src/sched/scheduler.rs:39-48 | the first CPU with the fewest Ready threads |
| Scheduler.SwitchConserves | kernel/src/sched/scheduler.rs:69-179 | a switch loses no thread but the one that was running, and that one iff it is neither Running nor Blocked |
| Scheduler.SwitchKeepsInv | kernel/src/sched/scheduler.rs:69-179 | a switch keeps one running thread per CPU, unique pids, and queues without Running or idle threads |
| Scheduler.StealLeavesReady | kernel/src/sched/scheduler.rs:97-127 | a steal leaves its victim at least one Ready thread |
| Scheduler.ChoiceUnique | kernel/src/sched/scheduler.rs:85-127 | the queues determine the choice |
| Scheduler.StepKeepsInv | kernel/src/sched/scheduler.rs:27-247 | every operation keeps the invariant |
| Scheduler.RunKeepsInv | kernel/src/sched/scheduler.rs:27-247 | the invariant holds in every state of every run from boot |
| Scheduler.ThreadSurvives | kernel/src/sched/scheduler.rs:135-168 | over every run, a thread stays in the system until a switch drops it |
| Scheduler.NeverLost | kernel/src/ipc/futex.rs:47-64 | over every run, a thread that is neither killed nor woken by a futex before it has left its CPU stays in the system |
| Scheduler.WokenOnCpuIsLost | kernel/src/ipc/futex.rs:50-55 | over every run, a thread woken by a futex before it has left its CPU is dropped by the next switch of that CPU and never comes back |
| Scheduler.LostByFutexWake | kernel/src/ipc/futex.rs:169-172 | a run in which a futex wakes a thread between its registration and its switch, and it is lost |
| Scheduler.WokenIffSwitched | kernel/src/sched/scheduler.rs:197-213 | over every run, the wakeup of a thread that marked itself Blocked, by a tick or a futex, makes it Ready in a queue iff its CPU switched to another thread since the mark |
| Scheduler.LostIffNotSwitched | kernel/src/sched/scheduler.rs:197-213 | over every run, with one registered deadline the wakeup comes no earlier, and leaves the thread Blocked with nothing left to wake it iff its CPU did not switch |
| Scheduler.SleeperPlace | kernel/src/sched/scheduler.rs:154-168 | over every run, between mark and wakeup the thread is Blocked, on its CPU before the switch and in a queue after it |
| Scheduler.LostWakeup | kernel/src/sched/scheduler.rs:197-213 | a run in which nothing else is runnable and the wakeup is lost |
| Scheduler.LostBeforeSwitch | kernel/src/sched/scheduler.rs:203-212 | a run in which another thread is ready, the tick comes between the registration and the switch, and the wakeup is lost |
| Scheduler.WokenAfterLateSwitch | kernel/src/sched/scheduler.rs:197-213 | a run in which nothing is runnable at the sleep, a later thread is switched to, and the sleeper is woken |
| Scheduler.LostForever | kernel/src/sched/wait.rs:36-66 | over every run, such a thread never becomes Ready unless it registers again or a futex wakes it |
| SmpScheduler.SmpScheduler.Initialize | kernel/src/sched/scheduler.rs:27-36 | one idle thread and an empty queue per CPU |
| SmpScheduler.SmpScheduler.SpawnKernelThread | kernel/src/sched/scheduler.rs:50-65 | a fresh pid, present exactly once, on the least loaded CPU |
| SmpScheduler.SmpScheduler.TakeNext | kernel/src/sched/scheduler.rs:85-127 | removes exactly the chosen thread: the local minimum or one stolen |
| SmpScheduler.SmpScheduler.ScheduleOn | kernel/src/sched/scheduler.rs:69-179 | one step of the model on that CPU; nothing on an unknown CPU |
| SmpScheduler.SmpScheduler.BlockCurrentUntil | kernel/src/sched/scheduler.rs:197-213 | uninterrupted, its three sections are three steps of the model and queue the thread iff another was chosen |
| SmpScheduler.SmpScheduler.MarkCurrentBlocked | kernel/src/sched/scheduler.rs:201-206 | the running thread keeps its place and is Blocked |
| SmpScheduler.SmpScheduler.MarkCurrentDead | kernel/src/sched/scheduler.rs:222-230 | the running thread keeps its place and is Dead; an unknown CPU changes nothing |
| SmpScheduler.SmpScheduler.MarkThreadsDead | kernel/src/sched/scheduler.rs:233-247 | exactly the named threads die, running or queued |
| SmpScheduler.SmpScheduler.TimerTick | kernel/src/sched/wait.rs:36-66 | uninterrupted, its three sections are three steps of the model: the counter, the sleep queue, the run queues |
| SmpScheduler.SmpScheduler.Expire | kernel/src/sched/wait.rs:39-48 | exactly the pids with a deadline up to now leave the sleep queue as one batch |
| SmpScheduler.SmpScheduler.WakeAll | kernel/src/sched/wait.rs:52-65 | exactly the queued Blocked threads of the batch turn Ready |
| SmpScheduler.SmpScheduler.TakeDue | kernel/src/sched/wait.rs:39-48 | takes exactly the entries with a deadline up to now |
| SmpScheduler.SmpScheduler.WakePid | kernel/src/sched/wait.rs:53-65 | readies the one queued Blocked thread with the pid, if any |
| SmpScheduler.SmpScheduler.WakeTid | kernel/src/ipc/futex.rs:47-64 | readies the Blocked thread with the pid, queued or running; true iff there is one |
| SmpScheduler.SmpScheduler.RegisterWakeup | kernel/src/sched/wait.rs:69-71 | appends the pid at its deadline |
| SmpScheduler.SmpScheduler.CancelWakeup | kernel/src/sched/wait.rs:74-79 | every deadline keeps its other pids, in order |
| Scheduler.ExceptMembers | kernel/src/sched/wait.rs:76-78 | dropping a pid keeps every other pid as often as it was |
| Fairness.PotentialDrops | kernel/src/sched/scheduler.rs:79-95 | for any virtual runtimes, each call that prefers another thread lowers the bound by exactly one |
| Fairness.RunsWithin | kernel/src/sched/scheduler.rs:79-168 | no starvation: every queued thread runs within its bound, whatever the virtual runtimes |
| Fairness.LevelPotential | kernel/src/sched/scheduler.rs:79-95 | from equal virtual runtimes the bound is the queue position |
| Fairness.StaysBalanced | kernel/src/sched/scheduler.rs:79-168 | from equal virtual runtimes, the running thread is always minimal and all are within one slice |
| Fairness.ServedInOrder | kernel/src/sched/scheduler.rs:79-168 | from equal virtual runtimes the queue is served in order |
| Fairness.FairFromLevel | kernel/src/sched/scheduler.rs:79-168 | both together: within one slice, and position i runs at exactly call i + 1 |
| Ext4Read.ReadFromExtents | kernel/src/fs/ext4.rs:251-298 | exactly the file's bytes up to the buffer's end or the end of the mapped run; fails iff a block of that run is unreadable |
| Ext4Read.ReadRun | kernel/src/fs/ext4.rs:272-292 | the block loop appends exactly one extent's bytes, or stops at the first missing block |
| Ext4Read.InExtent | kernel/src/fs/ext4.rs:257-275 | the code's comparisons and divisions locate the byte's logical block, for any block size |
| Ext4Lookup.LookupFrom | kernel/src/fs/ext4.rs:385-440 | ends on every directory and link graph and computes the component-by-component reference |
| Ext4Lookup.ComponentsJoin | kernel/src/fs/ext4.rs:428-431 | rejoining the rest of a path after a link and splitting it again changes nothing |
| Ext4Lookup.LookupComposes | kernel/src/fs/ext4.rs:385-440 | looking up p/q is looking up q from where p leads |
| Ext4Lookup.DepthOnlyLimits | kernel/src/fs/ext4.rs:385-388 | the link depth decides nothing but whether the limit is hit |
| Ext4Lookup.SelfLinkRefused | kernel/src/fs/ext4.rs:385-427 | a link to itself is refused, at any depth |
| ElfStack.SetupUserStack | kernel/src/sched/elf.rs:173-258 | in the bytes the process reads through its page tables: aligned to 16 bytes; argc, argv, NULL, envp, NULL and 12 auxiliary pairs upward; strings in place; nothing outside touched; fails only if the area is not fully mapped |
| ElfStack.UserMemory.CopyToUser | kernel/src/arch/aarch64/paging.rs:227-244 | the bytes read through the page tables are the data in the range and unchanged outside; fails iff a byte of the range is unmapped |
| ElfStack.OverlaidBytes | kernel/src/arch/aarch64/paging.rs:227-244 | a write laid over the frames is the same write laid over the bytes a program reads |
| ElfStack.PtrsOrdered | kernel/src/sched/elf.rs:207-228 | strings are 8-byte aligned and none overlaps the next |
| ElfStack.PushStrings | kernel/src/sched/elf.rs:207-228 | every string ends up NUL-terminated at its pointer |
| ElfStack.PushWords | kernel/src/sched/elf.rs:185-189 | words read upward in order, above what was pushed before |
| ElfStack.Auxv | kernel/src/sched/elf.rs:234-247 | twelve pairs of which only the last is AT_NULL |
| ElfStack.TableEnd | kernel/src/sched/elf.rs:229-232 | the padding aligns the final stack pointer for every argument count |
| ElfStack.WordReads | kernel/src/sched/elf.rs:185-189 | a 64-bit word of the table reads back as the number pushed |
| Pty.Pty.InputByte | kernel/src/drivers/pty.rs:266-397 | in cooked mode the line is edited and submitted as specified and the terminal shows flushed text and line; in raw mode the byte passes; the line never holds a newline |
| Pty.Pty.MasterWrite | kernel/src/drivers/pty.rs:447-454 | the same over every byte sequence |
| Pty.Pty.EchoByte | kernel/src/drivers/pty.rs:400-410 | the UART stream is the echo with CR before LF |
| Pty.Pty.EraseWord | kernel/src/drivers/pty.rs:343-362 | removes the spaces and the word at the end, from the line and from the terminal |
| Pty.Pty.KillLine | kernel/src/drivers/pty.rs:329-340 | empties the line and wipes it off the terminal |
| Pty.Pty.ProcessOutput | kernel/src/drivers/pty.rs:426-439 | CR before every LF exactly when both output flags are set |
| Pty.Pty.SlaveWrite | kernel/src/drivers/pty.rs:457-463 | the reader on the master side gets exactly the processed output |
| Pty.OnlcrUndone | kernel/src/drivers/pty.rs:426-439 | translated output can be translated back |
| Pty.DropSpacesIs | kernel/src/drivers/pty.rs:345-352 | exactly the trailing spaces go |
| Pty.DropWordIs | kernel/src/drivers/pty.rs:353-360 | exactly the last run of other characters goes |
| Pty.RuboutShows | kernel/src/drivers/pty.rs:319-322 | backspace, blank, backspace wipes exactly the last character |
| Sockets.AllocKeeps | kernel/src/net/mod.rs:150-180 | a new descriptor keeps the invariant iff its number is not a peered or pending owner |
| Sockets.ReusedOwnerBreaksPeering | kernel/src/net/mod.rs:162-164 | `socketpair` giving 3 and 4, `dup` giving 5, closing 3 and a new socket getting 3 breaks peering |
| Sockets.SocketTable.CleanupSocketFd | kernel/src/net/mod.rs:204-234 | the last descriptor destroys the socket, others only go away; the invariant holds again |
| Sockets.DestroyedPeer | kernel/src/net/mod.rs:213-233 | closing one end leaves the other unpeered and disconnected, and all others as they were |
| Sockets.SocketTable.CloneSocketFd | kernel/src/net/mod.rs:236-239 | the new descriptor shares the owner, whatever it was before; the invariant holds iff it was not the last one of another socket |
| Sockets.DupKeeps | kernel/src/net/mod.rs:236-239 | a duplicate keeps the invariant iff the number it takes strands no socket |
| Sockets.SocketTable.DupOnto | kernel/src/fs/fdtable.rs:130-157 | `dup3` closes the number it takes first and so always keeps the invariant |
| Sockets.SocketTable.DoBind | kernel/src/net/mod.rs:248-287 | EADDRINUSE iff another socket has the path or address; otherwise exactly this socket and, for a path, both path tables change |
| Sockets.SocketTable.DoListen | kernel/src/net/mod.rs:289-302 | EINVAL iff not bound; otherwise listening with a backlog of at least one |
| Sockets.SocketTable.DoAccept | kernel/src/net/mod.rs:304-373 | the first waiting client and the new socket become each other's peers and know each other's address; errors change nothing |
| Sockets.SocketTable.DoConnect | kernel/src/net/mod.rs:375-487 | each error has its exact condition, in the code's order; otherwise the socket joins the queue of the listener the address resolves to, where it cannot be already, and counts as connected |
| Sockets.SocketTable.DoSocketpair | kernel/src/net/mod.rs:489-518 | refused for other families and a null address; otherwise two new sockets, peers of each other, and all others unchanged |
| Signals.ReturnRestores | kernel/src/ipc/signal.rs:294-489 | over every run of calls of all processes, the sigreturn of a handler restores exactly the context its delivery interrupted, and the alternate stack is what it was, unless the handler was not on it and set a new one |
| Signals.SavedUntilReturn | kernel/src/ipc/signal.rs:404-489 | over every run, a saved context stays until the sigreturn of its own process, and an alternate stack in use stays as it is |
| Signals.RunKeepsAgree | kernel/src/ipc/signal.rs:251-489 | over every run, a process is on its alternate stack iff a handler that uses it has not returned |
| Signals.SignalTable.QueueSignal | kernel/src/ipc/signal.rs:64-72 | adds exactly that signal; numbers out of range change nothing |
| Signals.SignalTable.SetAction | kernel/src/ipc/signal.rs:160-191 | changes exactly the action, mask included, of that process and signal, and returns the old one; EINVAL iff the signal is out of range |
| Signals.SignalTable.SigProcMask | kernel/src/ipc/signal.rs:193-215 | union, difference or replacement of the blocked set |
| Signals.SignalTable.SignalfdConsume | kernel/src/ipc/signal.rs:231-249 | takes exactly the lowest pending signal of the mask |
| Signals.SignalTable.SigAltStack | kernel/src/ipc/signal.rs:251-292 | reports the old stack; a new one is refused iff malformed or the old one is in use, and otherwise set for exactly this process |
| Signals.SignalTable.SigReturn | kernel/src/ipc/signal.rs:294-312 | restores all 31 registers, sp and pc, clears only the on-stack flag of this process, and touches no other; EINVAL iff nothing is saved |
| Signals.SignalTable.EnterHandler | kernel/src/ipc/signal.rs:460-488 | saves the whole context and uses the alternate stack iff asked for and available; its address and size stay, and so do the records of other processes |
| Signals.SignalTable.DispatchPending | kernel/src/ipc/signal.rs:404-489 | takes at most the lowest pending unblocked signal, and none inside a handler |
| Signals.SignalTable.FinishSyscall | kernel/src/syscall/mod.rs:269-275 | the context a signal interrupts has the result in x0; contexts and stacks of other processes stay |
| Signals.SignalTable.HandleSigreturn | kernel/src/syscall/mod.rs:269-275 | the interrupted context is back exactly, in the frame or saved again for a second signal; outside a handler x0 gets the negated EINVAL |
| Signals.SignalTable.DeliverThenReturn | kernel/src/ipc/signal.rs:294-489 | whatever the handler leaves in the registers, delivery and return restore the interrupted context and the whole alternate-stack record; the status register is as the handler left it |
| Shm.ShmTable.DoShmget | kernel/src/mm/shm.rs:25-75 | returns the one live segment of the key or creates one |
| SharedMemory.DoShmat | kernel/src/mm/shm.rs:77-142 | EINVAL iff the segment is gone or marked; otherwise its memory is mapped at the address, with the area and the record, the process invariant holds if the address is aligned, and shared pages stay held by attachments |
| SharedMemory.DoShmdt | kernel/src/mm/shm.rs:144-184 | EINVAL iff nothing is attached at the address; otherwise the first attachment there goes with its pages and area, no frame is freed, the process invariant holds, and shared pages stay held by attachments |
| SharedMemory.DoMunmap | kernel/src/mm/mmap.rs:204-249 | as `munmap` on memory, and then exactly the attachments wholly inside the range of this thread are released; shared pages stay held by attachments |
| SharedMemory.SegmentAlive | kernel/src/mm/shm.rs:187-247 | where the threads that share the areas hold every shared page by an attachment, the segment behind each exists and counts one |
| SharedMemory.ExitKeepsLinked | kernel/src/sched/mod.rs:115-117 | the exit of a thread keeps the shared pages of the others held iff none was held by it alone |
| SharedMemory.ThreadExitFreesSegment | kernel/src/sched/mod.rs:115-117 | of two threads, one attaches a segment, marks it and exits: the segment is gone and its page still counts as shared |
| SharedMemory.ForkedLinked | kernel/src/sched/mod.rs:472-476 | the pages of a child of `fork` are held by attachments iff none counts as shared |
| SharedMemory.LinkedAfterOthers | kernel/src/mm/mmap.rs:82-347 | `mmap`, `mprotect` and `brk` keep every shared page held by an attachment of the segment it is named after |
| SharedMemory.LinkedAfterFixed | kernel/src/mm/mmap.rs:120-122 | and so does a fixed `mmap`, which releases the attachments of its thread that it covers |
| SharedMemory.AttachRecognised | kernel/src/mm/shm.rs:100-139 | every page attached counts as shared iff the address is aligned or its page was shared already |
| SharedMemory.UnalignedAttachIsFreed | kernel/src/mm/shm.rs:100-139 | a page of a segment attached at 4097 is among the frames that unmapping its page frees |
| SharedMemory.MapSegment | kernel/src/mm/shm.rs:110-116 | the pages of the range lead to the segment if mapped at all, all others are as before, and frames are used for tables only |
| SharedMemory.OwnedAfterAttach | kernel/src/mm/shm.rs:110-116 | attaching keeps the ownership of frames |
| Shm.ShmTable.Attach | kernel/src/mm/shm.rs:118-129 | one more record of that process and one more in the count of that segment |
| Shm.ShmTable.Detach | kernel/src/mm/shm.rs:149-183 | exactly the first record at the address goes, counts equal records again, and only a marked segment without records goes with it |
| Shm.ShmTable.CleanupProcessAttachments | kernel/src/mm/shm.rs:193-205 | all records of the process go, counts equal records again, and only marked segments without records go with them |
| Shm.ShmTable.DetachMappingsInRange | kernel/src/mm/shm.rs:209-247 | exactly the records wholly inside the range go; the rest keep their order |
| Shm.ShmTable.DoShmctlRmid | kernel/src/mm/shm.rs:255-264 | a marked segment remains iff it is still attached; all others are unchanged |
| Shm.ShmTable.Release | kernel/src/mm/shm.rs:198-204 | counts equal records again, and marked segments without records are gone |
| Shm.OwedIsCounted | kernel/src/mm/shm.rs:176-180 | the saturating decrement never saturates |
| Shm.RecordsUpdate | kernel/src/mm/shm.rs:118-129 | the total over all processes changes by the difference in one process |
| TimerFd.CatchUpIs | kernel/src/fs/vfs.rs:312-321 | the quotient is the number of deadlines and its product leads to the next one |
| TimerFd.FollowingIs | kernel/src/fs/vfs.rs:316-321 | the next deadline is the first after now, in phase with the old one |
| TimerFd.ExpirationsSplit | kernel/src/fs/vfs.rs:304-330 | counting in two parts counts the same |
| TimerFd.TimerFd.ReadAt | kernel/src/fs/vfs.rs:304-330 | reports exactly the deadlines that have come, saturating at the word size |
| TimerFd.TimerFd.ReadSeries | kernel/src/fs/vfs.rs:304-330 | unless a word overflows, any series of reads reports in total what a single read at the end would |
| TimerFd.TimerFd.SetTime | kernel/src/fs/mod.rs:771-794 | the deadline, saturating at the word size, and pending count that arming leaves behind |
| TimerFd.TimerFd.SetAndRead | kernel/src/fs/mod.rs:771-794 | arming and then reading reports what `FirstRead` says, unless the deadline does not fit a word |
| TimerFd.FirstReadExact | kernel/src/fs/mod.rs:779-793 | the first read is right iff no absolute deadline was past, or less than one period of a periodic timer had gone by |
| TimerFd.PastDeadlines | kernel/src/fs/mod.rs:781-790 | a past one-shot deadline is reported twice, three missed periods as one |

## Left out

- ProcessMemory.Process.DoMmap: ESRCH for a missing process, the file offset it moves and moves back, and, for a fixed request, the release of covered attachments by the `munmap` inside, which is `SharedMemory.LinkedAfterFixed`.
- ProcessMemory.Process.DoMunmap: the release of attachments at its end, which `SharedMemory.DoMunmap` adds.
- Shm.ShmTable.Attach: the pages and areas, which `SharedMemory.DoShmat` adds, and saturation of the count at 2^64.
- Shm.ShmTable.Detach: the pages and areas, which `SharedMemory.DoShmdt` adds.
- SharedMemory.DoShmat: a segment whose buffer does not start on a page boundary, which the kernel heap may hand out; its bytes then do not start at the address. Also what an attach without a user page table would write.
- ElfStack.SetupUserStack: the pseudo-random generator is a parameter.
- SmpScheduler.SmpScheduler.BlockCurrentUntil: its contract is for a call without interruption; what happens between its sections is the subject of `Scheduler.WokenIffSwitched`.
- SmpScheduler.SmpScheduler.TimerTick: likewise.
- Pty.Pty.InputByte: the terminal law is for printable ASCII, newlines and the editing, end-of-file and signal characters; other control characters are echoed raw.
- Sockets.SocketTable.DoAccept: blocking until a client arrives, receive queues, ancillary data and the address written back to user memory.
- Sockets.SocketTable.DoSocketpair: writing the descriptor numbers to user memory.
- TimerFd.TimerFd.SetAndRead: the report once the deadline does not fit a word.
- Signals.SignalTable.SigAltStack: reading the request from user memory and writing the old stack back.
- Signals.SignalTable.QueueSignal: choosing the threads that `kill` and `tgkill` address.
- Signals.SignalTable.DispatchPending: the exit of a process killed by default is recorded, not carried out.
- Shm.ShmTable.DoShmctlRmid: the other commands of `shmctl`.
- TimerFd.TimerFd.ReadAt: sleeping between attempts.
- TimerFd.TimerFd.ReadSeries: the total once a word has overflowed.
- Scheduler.SwitchConserves: register contexts, first-run setup and page-table activation.
- Ext4Read.ReadFromExtents: collecting the extents from the index tree, and blocks without extents.
- `map_range`, `map_anon` and dropping an address space: they would only add easy members.
- TLB maintenance, barriers and other hardware effects.
- The wait queues of futexes, VFS path resolution and rename, `recvmsg`, ioctl tables, procfs and devfs.
