# AdamOS in Dafny

A model of the hard parts of AdamOS, a small x86 kernel with user programs, and proofs about it:

* **Virtual memory**: the bitmap frame allocator, two-level page tables, fork, exec, sbrk and
  removal (`PageTables`, `Ownership`, `ForkCopy`, `Teardown`, `Mapping`, `AddressSpace`,
  `ExecImage`, `Isolation`, `FrameRoom`, `Leaks`, `FrameAllocator`, `KernelSpace`, `ForkMapping`,
  `HeapBreak`; the code in `FrameBits`, `KernelMemory`). Physical memory is a
  sequence of frames of 1024 words, and a translation is a walk through them, as in section 4.3
  of the Intel SDM, volume 3A. Ownership of frames is a map from used frames to roles that each
  operation extends or restricts.
* **Scheduling**: the process list with preemption, sleep, wait, exit, kill, reparenting, Ctrl-C
  and the blocking stdin read (`Scheduling`, `ProcessTable`, `SchedulerRuns`, `Fairness`,
  `ContextSwitch`, `Waking`, `SleepTicks`, `Waiters`, `Zombies`, `Creation`, `Heirs`, `Handlers`; the
  code in `SchedulerCode`).
* **Kernel heap**: first fit, split and coalesce (`KernelHeap`; the code in `KernelHeapCode`).
* **FAT16** on a map from sector numbers to sectors (`Fat16`, `Fat16Chains`, `Fat16Files`,
  `Fat16RoundTrip`, `Fat16Names`, `Fat16Layout`; the code in `Fat16Code`,
  `CStrings`, with strings in `ByteStrings` and `Tokens`). Entry and chain values
  are those of the Microsoft FAT32 File System Specification 1.03, sections "FAT Data Structure"
  and "FAT Directory Structure".
* **Windows**: stacking, clicking, dragging and compositing (`Windows`, `Stacking`, `ClosedWindows`,
  `HiddenWindows`, `WindowGeometry`; the code in `WindowCode`), the line loop and when it overflows
  (`Line`, `LineOverflow`), and the pixel buffer and its place on the heap (`PixelBuffer`,
  `WindowMemory`; the code in `LineCode`).
* **Brainfuck**: the interpreter against a structured meaning (`Brainfuck`, `BrainfuckMeaning`,
  `BrainfuckOutput`; the code in `BrainfuckCode`).
* **Tetris** (`Tetris`, `TetrisRuns`, `TetrisRules`; the code in `TetrisCode`) and **decimal printing and
  parsing** (`Decimal`; the code in `DecimalCode`).

`Integers`, `Lists` and `FiniteSets` hold what several parts share.

Each part has two layers. Functions on values say what an operation does to the state, and the
theorems are about them: invariants, whole runs, round trips. A class or methods in the source's
own form (pointers, arrays, loops, fields changed in place) are proved to compute these
functions. A run is a sequence of events in any order; it starts in the state after boot.

Assumptions that come from the source and are written as conditions:

* The frame allocator does not run out. No caller looks at its result 0; the model records that
  it happened (`exhausted`), and theorems speak of runs without it.
* Idle makes no system call, and kill is given a pid of at least 1.
* A heap request leaves room for a header in the block it gets; that this is needed is proved.
* File names fit the 8.3 buffers of the name formatting, and file sizes are below 2^31.
* A line is drawn when its arithmetic does not overflow and its points lie in the buffer. Which lines
  these are is proved, and for which windows and which heaps every point lies in the buffer.

The kernel heap may run out. Creating a process and creating a window use what kmalloc returns
without looking at it; the model takes that pointer as a parameter of the event, 0 for NULL, and the
theorems about the process table and the window stack say what a run with such events leaves.

`dafny verify dfyconfig.toml` checks the project.

## Model

| member | source | states |
|---|---|---|
| Isolation.RunsAreIsolated | kernel-space/kernel/page-table.c:60-221 | over every run of creating, forking, exec, sbrk, removal and ring-3 stores, at any address, in which the allocator does not run dry: a frame reached through a user-flagged entry at or above 0x40000000 is reached from one page of one process only, its bit is set, and no page below 0x40000000 that a wrapped sbrk has opened to ring 3, in whatever process, leads to it |
| Isolation.EventsAreLocal | kernel-space/cpu/syscall.c:66-128 | after any run, an event of one process, ring-3 stores at any address included, leaves the user mappings of every other process at or above 0x40000000 and what they hold unchanged |
| Isolation.StoreIsRead | kernel-space/kernel/page-table.c:207-221 | a ring-3 store to a page open to its process is read back there and changes nothing else of that page or of any other user page of the process; a store elsewhere changes nothing |
| Isolation.RunsAreWellOwned | kernel-space/kernel/page-table.c:60-221 | every state of such a run has an ownership assignment of frames (directory, table or leaf of one process, or shared), which is what the theorems on fork, exec and removal ask for |
| Isolation.OwnershipIsolates | kernel-space/kernel/page-table.c:60-97 | such an assignment excludes that two user pages share a frame, or that a low page open to ring 3 leads to the frame of one |
| Isolation.LowPageIsLeaked | kernel-space/cpu/syscall.c:370-394 | a page below 0x40000000 that is open to ring 3 leads to a frame that has no role: it is neither frame 0, nor of the kernel's memory, nor a directory, table or user page of any process |
| Isolation.CreateKernelKeeps | kernel-space/kernel/kernel.c:20-39 | building a process's first directory keeps the ownership of everything that was there and makes the new directory a well-formed one |
| Isolation.BootKeeps | kernel-space/kernel/kernel.c:61-63 | the frames taken at boot are an ownership assignment without a process: frame 0, and the frames of the kernel's memory, which are nobody's |
| KernelSpace.FirstDirectoryTranslates | kernel-space/kernel/kernel.c:20-39 | after building a first directory that does not run out of frames: every page below 0x400000, of the framebuffer, and of the directory itself translates to itself for the kernel; the pages at 0x40000000 and 0x50000000 lead, with flags 7, to two frames that were free, the first holding the code; no other page is open to ring 3, and whatever else is mapped is a page below 0x40000000 that translates to itself |
| KernelSpace.HeapIsMapped | kernel-space/kernel/kernel.c:20-39 | whatever the kernel heap hands out, each of its bytes is in a page that the new directory translates to itself |
| KernelSpace.KernelMemoryIsOutOfReach | kernel-space/kernel/kernel.c:61-63 | over every run that does not run out of frames: no page that ring 3 can use, at whatever address and of whatever process, leads to a frame from address 0 to 0x400000, and none of these frames is ever free |
| KernelSpace.NewTableIsReached | kernel-space/kernel/page-table.c:207-221 | the table that map_page makes where there was none is on a frame that was free, maps the page to the frame asked for with the flags asked for and the present bit, and the kernel reaches it at its own address |
| FrameAllocator.GrantIsLowest | kernel-space/kernel/frame.c:18-26 | allocate_frame grants the lowest free frame from 1 to 32767 and marks no other; it returns 0 exactly when there is none |
| FrameAllocator.FreedIsGrantedAgain | kernel-space/kernel/frame.c:18-51 | free_frame releases that frame alone, and never frame 0; it undoes an allocation, and the frame is granted again unless a lower one is free |
| FrameAllocator.BootTakes | kernel-space/kernel/kernel.c:61-63 | boot's loop of allocations from address 0 up to 0x400000 leaves frames 0 to 1024 in use and the others free, which is where runs begin |
| ForkCopy.ForkIsDeepCopy | kernel-space/kernel/page-table.c:60-97 | for every page at or above 0x40000000 the child maps it exactly when the parent does, with equal flags and equal contents, on a frame that was free before and that no other page of the child uses |
| ForkCopy.ForkSharesKernelHalf | kernel-space/kernel/page-table.c:65-70 | below 0x40000000 parent and child translate every page alike |
| ForkCopy.ForkKeepsParent | kernel-space/cpu/syscall.c:66-77 | the parent keeps its translations and the contents of its user pages; what is new below 0x40000000 is identity mappings only |
| ForkMapping.ForkMapsItsFrames | kernel-space/kernel/page-table.c:60-97 | every frame that fork takes, for directory, tables and pages of the child, translates to itself for the kernel in the parent's directory wherever that has a table: the copy can be written there |
| ForkMapping.ForkMapsItsSources | kernel-space/kernel/page-table.c:79-93 | so does every frame of the parent that is copied: it can be read there |
| ForkCopy.CopyLeavesKeeps | kernel-space/kernel/page-table.c:79-93 | the inner loop from any index on: ownership is kept and each remaining entry is copied to a fresh frame with its flags and contents |
| ForkCopy.CopyDirectoryKeeps | kernel-space/kernel/page-table.c:60-97 | the outer loop from any index on, likewise for whole tables |
| Teardown.NoDoubleFree | kernel-space/kernel/page-table.c:99-123 | clearing a directory takes exactly as many frames out of the bitmap as it calls free_frame: none is freed twice, none was free |
| Teardown.ClearUnmapsUser | kernel-space/kernel/page-table.c:99-123 | after clearing no page at or above 0x40000000 is open to ring 3, and the frame of each page that was is free |
| Teardown.ClearDirectoryFrees | kernel-space/kernel/page-table.c:99-123 | a frame is free after the loop exactly when it was, or is a user leaf or user table of the rest of the directory |
| Teardown.ForkThenRemove | kernel-space/kernel/page-table.c:60-123 | forking and removing the child restores the used frames exactly, but for the child's directory and its copies of supervisor tables and pages, which stay used |
| Leaks.LeaksAddUp | kernel-space/kernel/page-table.c:60-123 | over every run: the frames that removed processes left behind (their directories, their supervisor tables and pages), added up over the events, the directories of the live processes and frame 0 are all in use together |
| Leaks.RemovalsRunOut | kernel-space/kernel/page-table.c:99-123 | a run that has removed so many processes that they and the live ones number 32768 has run out of frames, however few were alive at a time |
| Leaks.StepLoses | kernel-space/kernel/page-table.c:99-123 | no event gives back a frame that a removed process left behind, and a removal adds its own to those |
| Mapping.MapPageMaps | kernel-space/kernel/page-table.c:207-221 | map_page keeps ownership, enters the page as asked, keeps every other user mapping and the flags of a table that was there, and gives a new table the page's flags |
| Ownership.IdentityMapKeeps | kernel-space/kernel/page-table.c:3-8 | an identity mapping changes one low table and keeps ownership |
| Ownership.AllocKeeps | kernel-space/kernel/frame.c:18-26 | a granted frame had no role, and giving it one keeps ownership |
| ExecImage.ExecPage | kernel-space/kernel/page-table.c:99-168 | exec, whatever was mapped: every page of the image (the file's bytes from 0x40000000 on, 32 pages more, and the page at 0x50000000) is mapped with flags 7 and holds its part of the file or zeros, and ring 3 sees a page exactly when it is of the image and its table was not flagged supervisor |
| ExecImage.ExecMapsExactlyWhen | kernel-space/kernel/page-table.c:124-147 | ring 3 sees the code pages, 32 further pages and the stack page and nothing else, precisely when no supervisor table covers one of them |
| ExecImage.ExecLoadsFile | kernel-space/kernel/page-table.c:129-137 | byte k of the file is read back at 0x40000000 + k |
| ExecImage.ExecZeroesBss | kernel-space/kernel/page-table.c:139-144 | the 32 pages behind the code are zero |
| ExecImage.SbrkExtendsHeap | kernel-space/cpu/syscall.c:370-394 | the break, 0x48000000 at first, moves by the request modulo 2^32; the pages that begin between the old and the new one are mapped for ring 3 on fresh zeroed frames; every other user page keeps mapping and contents |
| ExecImage.SbrkEndsExactlyWhen | kernel-space/cpu/syscall.c:382-390 | the mapping loop ends precisely when the new break is not in the last page of the address space or nothing is to be mapped |
| ExecImage.SbrkCanRunForever | kernel-space/cpu/syscall.c:382-390 | from a fresh break a request of 0xB7FFFFFF makes the new break 0xFFFFFFFF and the loop never ends |
| HeapBreak.BreakMoves | kernel-space/kernel/process-control-block.c:13 | over one event a process keeps its directory, and its break unless it calls sbrk; a new process begins with no break, whatever its parent has |
| HeapBreak.BreakAddsUp | kernel-space/cpu/syscall.c:370-394 | over every run that keeps a process the break is where it was plus all it has asked for, as long as that stays below the last page of the address space |
| HeapBreak.ForkedHeapIsLost | kernel-space/cpu/syscall.c:66-86 | a child of a fork sees the parent's heap but has no break: its first sbrk gives it the heap from 0x48000000 again, and every page there that it inherited is replaced by a zeroed one on a fresh frame |
| HeapBreak.BreakOutlivesExec | kernel-space/cpu/syscall.c:88-128 | exec drops the heap and keeps the break: after a further sbrk the page of the old break, where the memory handed out begins, is open to ring 3 only if the break is at a page boundary or the page is in the new image |
| FrameRoom.ExecFits | kernel-space/kernel/page-table.c:99-147 | exec does not run out of frames, and leaves n free, when n and twice the number of its pages are free: a frame for each page and a page table at most |
| FrameRoom.CreateFits | kernel-space/kernel/kernel.c:20-39 | the same for a process's first directory: at most a page table for each page it maps, and six frames more |
| FrameRoom.HiddenImage | kernel-space/kernel/page-table.c:124-221 | a run from boot, on a machine whose framebuffer begins in the first 4 MB of the image: exec of any program of up to 32 MB maps every page, and none of the image's first 4 MB is open to ring 3 |
| FrameRoom.FramebufferCloses | kernel-space/kernel/kernel.c:20-39 | the table of the 4 MB in which the framebuffer begins is a supervisor one, also when code or stack lie there |
| AddressSpace.BlitBytes | kernel-space/kernel/page-table.c:134-136 | copying bytes to a page puts byte t at offset t and leaves the bytes behind them |
| AddressSpace.WordIsLittleEndian | kernel-space/kernel/page-table.c:129-137 | byte 0 of a word in memory is the lowest in value |
| KernelMemory.Memory.constructor | kernel-space/kernel/frame.c:12-16 | after initialisation frame 0 alone is in use |
| KernelMemory.Memory.SetFrame | kernel-space/kernel/frame.c:5 | one frame more is in use, no other bit changes |
| KernelMemory.Memory.ClearFrame | kernel-space/kernel/frame.c:4 | one frame fewer is in use, no other bit changes |
| KernelMemory.Memory.TestFrame | kernel-space/kernel/frame.c:6-10 | tells whether the frame is in use |
| KernelMemory.Memory.AllocateFrame | kernel-space/kernel/frame.c:18-26 | the search loop grants the lowest free frame, or 0 and marks the machine as exhausted |
| KernelMemory.Memory.FreeFrame | kernel-space/kernel/frame.c:47-51 | frees the frame, and does nothing for frame 0 |
| KernelMemory.OtherFrames | kernel-space/kernel/frame.c:4-5 | changing a frame's bit in its word changes no other frame's bit |
| KernelMemory.Memory.IdentityMap | kernel-space/kernel/page-table.c:3-8 | refines the identity mapping of the ownership theorems |
| KernelMemory.Memory.MapPageAt | kernel-space/kernel/page-table.c:207-221 | refines the mapping function of the theorems, page tables created on demand |
| KernelMemory.Memory.CreatePageTable | kernel-space/kernel/page-table.c:37-58 | a zeroed page on a fresh frame |
| KernelMemory.Memory.CreatePageDirectory | kernel-space/kernel/page-table.c:10-20 | a zeroed directory on a fresh frame that maps itself |
| KernelMemory.Memory.CopyPageDirectory | kernel-space/kernel/page-table.c:60-97 | the two loops compute the copy that the fork theorems are about |
| KernelMemory.Memory.ClearPageDirectory | kernel-space/kernel/page-table.c:99-123 | the two loops compute the clearing that the teardown theorems are about |
| KernelMemory.Memory.ForkDirectory | kernel-space/cpu/syscall.c:66-77 | the memory part of fork |
| KernelMemory.Memory.UpdatePageDirectory | kernel-space/kernel/page-table.c:124-147 | the loops compute the image that the exec theorems are about |
| KernelMemory.Memory.GrowHeap | kernel-space/cpu/syscall.c:370-394 | the loop computes the new pages and break of the sbrk theorem |
| KernelMemory.Memory.CreateKernelPageDirectory | kernel-space/kernel/kernel.c:20-39 | the loops compute the directory that KernelSpace.FirstDirectoryTranslates says the translations of: kernel and framebuffer, one code page, one stack page |
| KernelMemory.OwnedIsInRange | kernel-space/kernel/page-table.c:112-119 | under ownership every frame that clearing frees has a bit in the bitmap |
| SchedulerRuns.RunsKeepTheTable | kernel-space/kernel/scheduler.c:69-244 | over every run, control blocks that the heap has no room for included: pids distinct, positive and below the counter, queue size larger than the list by exactly the number of processes whose control block kmalloc refused, the current process and pids 1 and 2 listed, each parent 0 or a listed smaller pid, kernel stack and page directory those of the current process; and whichever handler calls update_scheduler next, next_process does not reach its error loop there |
| SchedulerRuns.RunCounts | kernel-space/kernel/scheduler.c:75-213 | over every run the queue size exceeds the list by what it did before and one for each refused control block |
| SchedulerRuns.StepKeeps | kernel-space/kernel/scheduler.c:142-244 | each event keeps these invariants |
| SchedulerRuns.ExitingIsUnlinked | kernel-space/kernel/scheduler.c:153-157 | when the current process, other than pids 1 and 2, is a zombie, it is not the process selected next, and is unlinked before the switch completes |
| SchedulerRuns.HandlersChangeCurrentOnly | kernel-space/cpu/syscall.c:61-165 | each handler that calls update_scheduler changes before the call only the control block of the current process, no registers, and turns neither idle nor init into a zombie |
| Zombies.UnlinkedExactlyWhenCurrent | kernel-space/kernel/scheduler.c:90-168 | a switch unlinks a listed zombie of pid 3 or more precisely when it is the current process; any other stays listed and, if it is the one selected, runs again |
| Zombies.StepKeepsOnlyCurrentDoomed | kernel-space/kernel/scheduler.c:142-283 | the only zombie of pid 3 or more stays the current process under precisely the events that are not a Ctrl-C on another such process |
| Zombies.RunKeepsOnlyCurrentDoomed | kernel-space/kernel/scheduler.c:142-283 | likewise in all states of a run, precisely when the run has no such Ctrl-C |
| Zombies.ExitingNeverRunsAgain | kernel-space/kernel/scheduler.c:142-213 | over every run from boot without such a Ctrl-C, a process of pid 3 or more that exits, is killed or is interrupted is unlinked by the next call of update_scheduler and not selected by it |
| Zombies.InterruptedChildRunsAgain | kernel-space/kernel/scheduler.c:90-283 | a run from boot in which Ctrl-C makes a waiting parent's child a zombie while idle runs, and 20 ticks later the child runs on |
| SchedulerRuns.AddKeeps | kernel-space/kernel/process-control-block.c:3-35 | a process created by fork or by the desktop keeps the invariants whether or not kmalloc gives it a control block; with one it is appended under a fresh pid, with a listed parent or none |
| Creation.ForkAppends | kernel-space/cpu/syscall.c:79-86 | fork appends exactly one process: its pid is new and is the parent's eax, its parent is the current process, it is ready, awaits nobody, has the kernel stack and directory handed over, and its registers are the parent's but for eax, which is 0; nothing else changes but the parent's eax. Without a control block nothing is appended |
| Creation.LaunchAppends | kernel-space/lib/desktop.c:128-132 | a program started from the desktop is appended with parent 0 and the registers given, and the running process keeps all of its own |
| Creation.ForkReturnsTwice | kernel-space/cpu/syscall.c:66-86 | over every run from boot: the parent goes on with the child's pid in eax, and when the child first has the processor, however late, it finds the registers of the call with 0 in eax |
| Creation.PidsInOrder | kernel-space/kernel/process-control-block.c:3-14 | after any run from boot the next fork answers 3 and one for each process created before, those without a control block included |
| Creation.FirstChild | kernel-space/cpu/syscall.c:79-86 | from boot the first fork of init answers 3, and the child stored has pid 3, parent 2 and 0 in eax |
| Heirs.RemoveBereaves | kernel-space/kernel/scheduler.c:215-244 | when a process is taken out, its children get its parent, and those who awaited it, in list order, get its children, in list order, one each; surplus waiters go on awaiting it, and nothing else of any process changes |
| Heirs.KillBereaves | kernel-space/kernel/scheduler.c:170-244 | killing another process than the current one does exactly that |
| Heirs.ExitBereaves | kernel-space/kernel/scheduler.c:153-244 | so does the exit of the current process to parents and awaited pids |
| Heirs.HeirWakesWaiter | kernel-space/kernel/scheduler.c:170-257 | a process awaits another that has children and is killed: over every run in which nothing disturbs it, the exit of the first of these children wakes it, if it is still the first to await that child |
| Heirs.ExitEndsWait | kernel-space/kernel/scheduler.c:153-257 | the exit of a process makes the first process that awaits it ready or running |
| ProcessTable.NextStops | kernel-space/kernel/scheduler.c:90-108 | next_process stops at a process that does not wait, no further away than any other such process, within its size counter |
| ProcessTable.NextKeeps | kernel-space/kernel/scheduler.c:90-108 | with idle not waiting the error loop is not reached, and any process but idle is given up for another |
| ProcessTable.RemoveKeeps | kernel-space/kernel/scheduler.c:170-213 | unlinking a process and handing its children to its parent keeps list and forest |
| ProcessTable.RemoveKeepsOthers | kernel-space/kernel/scheduler.c:170-244 | every other process stays listed and keeps everything but parent and awaited pid; what becomes of these two Heirs.RemoveBereaves says |
| ProcessTable.RemoveAbsent | kernel-space/kernel/scheduler.c:170-213 | a pid that is not listed has no children, and removing it changes nothing |
| ProcessTable.ReparentKeepsShape | kernel-space/kernel/scheduler.c:215-244 | the parents after reparenting: children of the dying process, and only they, get its parent; for the awaited pids see Heirs.RemoveBereaves |
| Fairness.RoundRobinIsFair | kernel-space/kernel/scheduler.c:142-168 | with n processes and none added, a process that is not waiting and stays listed is current within 20 * (n - 1) calls of update_scheduler |
| Fairness.SwitchApproaches | kernel-space/kernel/scheduler.c:90-168 | at each switch the cyclic distance from the current process to one that can run strictly falls |
| Fairness.StepApproaches | kernel-space/kernel/scheduler.c:142-244 | no event brings such a process further away, and each call of update_scheduler uses up quantum or distance |
| ContextSwitch.ResumedAsSwitchedOut | kernel-space/kernel/scheduler.c:153-167 | a process that gives up the processor and has it back at the end of any run finds its registers as it left them, but for eax after a completed stdin read of its own; idle or init, when marked as a zombie at the moment it gives up, finds the registers saved before; nothing is asked of the rest of the run |
| ContextSwitch.ResumedExactlyWhen | kernel-space/kernel/scheduler.c:153-167 | with other registers than those in its control block it finds its own again precisely unless it is idle or init, marked as a zombie, and the event calls update_scheduler |
| ContextSwitch.StepRegs | kernel-space/kernel/scheduler.c:142-168 | one event: the registers of every process that stays listed are unchanged, wherever they are kept, but for a delivered byte count, for what the running process does itself, and for idle or init giving up the processor as a zombie |
| ContextSwitch.SwitchSavesExactlyWhen | kernel-space/kernel/scheduler.c:153-160 | a switch saves the interrupted registers of a process that stays listed, precisely unless it is pid 1 or 2 marked as a zombie |
| ContextSwitch.InterruptedInitLosesRegisters | kernel-space/kernel/scheduler.c:259-283 | a run from boot in which Ctrl-C hits init and its registers are lost: the exception is reachable |
| ContextSwitch.WakeReaderRegs | kernel-space/kernel/stdin.c:42-69 | waking a reader changes eax of the reader alone; the running process keeps registers, kernel stack and directory |
| Waking.SleepsExactly | kernel-space/cpu/syscall.c:158-165 | from the call of sleep(n) on, over any run of events that does not disturb it, a process waits off the processor until update_scheduler has been called n times, the sleep's own call included, and the n-th call ends its wait |
| Waking.SleeperSteps | kernel-space/kernel/scheduler.c:125-168 | one event: any waiting process, asleep or not, waits on, one call nearer to the end of its sleep if update_scheduler is called, precisely unless it is killed or interrupted, its pending read completes, or the process whose first waiter it is exits |
| Waking.SleepStarts | kernel-space/cpu/syscall.c:158-165 | the call of sleep takes a process off the processor for the ticks that are left, and a sleep of one tick is over at once |
| Waking.SleepsExactlyWhen | kernel-space/cpu/syscall.c:158-165 | a sleep of 0 ticks changes nothing; a longer one than a tick puts to sleep exactly the processes other than idle |
| SleepTicks.TicksRunDown | kernel-space/kernel/scheduler.c:125-140 | over every run in which a process stays listed and does not call sleep, whether it waits, runs or is a zombie, what is left of its last sleep falls with each call of update_scheduler, down to 0 |
| Waking.ExitWakesItsWaiter | kernel-space/kernel/scheduler.c:153-157 | the exit of a process makes the first process that waits for it ready or running |
| Waiters.LeavesExactlyWhen | kernel-space/kernel/scheduler.c:142-213 | a process leaves the list precisely when another kills it, or when it is current and a zombie at a call of update_scheduler, pids 1 and 2 excepted |
| Waiters.WaiterWakesExactlyWhen | kernel-space/kernel/scheduler.c:153-257 | when an awaited process leaves the list, its waiter wakes precisely when that process exits by itself and the waiter is the first in the list to wait for it |
| Waiters.KillStrands | kernel-space/kernel/scheduler.c:170-213 | killing a childless process leaves everyone who waits for it waiting for a pid that is nobody's |
| Waiters.StrandedStep | kernel-space/kernel/scheduler.c:125-257 | one event: such a waiter stays so precisely unless it is killed or interrupted itself, or its pending read completes |
| Waiters.KilledIsAwaitedForever | kernel-space/kernel/scheduler.c:170-257 | so over every run without such an event it waits for ever |
| Handlers.KillMeans | kernel-space/cpu/syscall.c:130-133 | kill gives 0xFFFFFFFF exactly for pids 1 and 2, and then changes nothing else; for all others it gives 0, and the process is out of the list, or is the caller and a zombie |
| Handlers.ExitMeans | kernel-space/cpu/syscall.c:61-64 | exit takes any process but idle and init out of the list |
| Handlers.WaitMeans | kernel-space/cpu/syscall.c:135-141 | wait(pid) puts the caller off the processor, awaiting pid, and makes pid the foreground process |
| Handlers.WaitEndsAtExit | kernel-space/kernel/scheduler.c:153-257 | over every run: a caller of wait that is not disturbed waits until the awaited process exits, and that exit wakes it if it is the first to await it |
| Handlers.ReadMeans | kernel-space/kernel/stdin.c:70-75 | a blocking read puts the caller off the processor as the reader |
| Handlers.KeyMeans | kernel-space/kernel/stdin.c:42-69 | the key that completes a read makes the reader ready with the byte count in eax, leaves no reader, and changes no other process |
| Handlers.ReadReturns | kernel-space/kernel/stdin.c:42-75 | over every run: a blocking read keeps its caller off the processor until a key completes it, and on its next turn, however late, the caller finds the registers of its call with the count in eax |
| Handlers.InterruptMeans | kernel-space/kernel/scheduler.c:259-283 | Ctrl-C makes exactly the foreground process a zombie, takes away its pending read and leaves nothing in the foreground; without a foreground process it does nothing |
| Handlers.KeptExactlyWhen | kernel-space/kernel/scheduler.c:142-168 | update_scheduler lets the current process go on precisely when no sleep ends, it is not the 20th call since it got the processor, and it is ready or running; whoever gets the processor else is running and has a new quantum |
| Handlers.TwentyTicks | kernel-space/kernel/scheduler.c:147-151 | while nobody sleeps, a process that does not block runs for 19 ticks, and the 20th takes the processor from any but idle |
| Handlers.FirstQuantum | kernel-space/kernel/kernel.c:65-75 | after boot Ctrl-C does nothing, init runs for 19 ticks and idle from the 20th on |
| SchedulerCode.Scheduler.constructor | kernel-space/kernel/kernel.c:65-75 | init heads the list and runs, idle follows it |
| SchedulerCode.Scheduler.NextProcess | kernel-space/kernel/scheduler.c:90-108 | the pointer loop selects the process of the specification and ends |
| SchedulerCode.Scheduler.DecrementWaitProcess | kernel-space/kernel/scheduler.c:125-140 | every sleeper ages by one, and the result tells whether one woke |
| SchedulerCode.Scheduler.UpdateScheduler | kernel-space/kernel/scheduler.c:142-168 | the whole new process table and processor state, as the run theorems use it |
| SchedulerCode.Scheduler.RemoveProcess | kernel-space/kernel/scheduler.c:170-213 | refusal for pids 1 and 2, zombie for the current process, else reparenting and unlinking in the linked list; the part on the process list |
| SchedulerCode.Scheduler.ReparentChildren | kernel-space/kernel/scheduler.c:215-244 | the loops over the list compute the parents and awaited pids that Heirs.RemoveBereaves states |
| SchedulerCode.Scheduler.WakeWaiter | kernel-space/kernel/scheduler.c:246-257 | the first process waiting for the pid becomes ready |
| SchedulerCode.Scheduler.SigintForeground | kernel-space/kernel/scheduler.c:259-283 | the foreground process becomes a zombie, a pending read of it is dropped |
| SchedulerCode.Scheduler.Enqueue | kernel-space/kernel/scheduler.c:75-88 | the process is appended to the list and counted |
| SchedulerCode.Scheduler.ForkCurrent | kernel-space/cpu/syscall.c:79-86 | the process part of fork, whose meaning Creation.ForkAppends states |
| SchedulerCode.Scheduler.LaunchProgram | kernel-space/lib/desktop.c:128-132 | starting a program from the desktop, whose meaning Creation.LaunchAppends states |
| SchedulerCode.Scheduler.ExitCurrent | kernel-space/cpu/syscall.c:61-64 | exit as a step of the process machine |
| SchedulerCode.Scheduler.KillProcess | kernel-space/cpu/syscall.c:130-133 | kill as a step of the process machine |
| SchedulerCode.Scheduler.WaitFor | kernel-space/cpu/syscall.c:135-141 | wait as a step of the process machine |
| SchedulerCode.Scheduler.SleepFor | kernel-space/cpu/syscall.c:158-165 | sleep as a step of the process machine; idle and 0 ticks do not sleep |
| SchedulerCode.Scheduler.StdinBlock | kernel-space/kernel/stdin.c:70-75 | a blocking read as a step of the process machine |
| SchedulerCode.Scheduler.StdinWake | kernel-space/kernel/stdin.c:42-69 | completing a read as a step of the process machine |
| KernelHeap.RunsConserve | kernel-space/kernel/kmalloc.c:6-72 | over every run of allocations and frees: blocks in address order, disjoint and inside the heap, no two list neighbours free, and all bytes accounted for up to at most 47 lost per unsplit allocation |
| KernelHeap.FreeingEverything | kernel-space/kernel/kmalloc.c:32-72 | freeing all live pointers in any order leaves one free block of exactly the size that was not lost |
| KernelHeap.MallocKeepsExactlyWhenRoomy | kernel-space/kernel/kmalloc.c:13-30 | an allocation keeps the heap's invariant precisely when its first fit, if any, exceeds the request by a 12-byte header |
| KernelHeap.FreshHeapCanBreak | kernel-space/kernel/kmalloc.c:13-30 | a fresh heap is broken by a request five bytes short of all of it |
| KernelHeap.MallocKeeps | kernel-space/kernel/kmalloc.c:48-63 | the invariant is kept and the total falls by the slack, at most 47 bytes |
| KernelHeap.MallocUses | kernel-space/kernel/kmalloc.c:48-63 | NULL exactly when no free block is larger; else a block of exactly the size asked for, away from every live one, and no live one changes |
| KernelHeap.FreeKeeps | kernel-space/kernel/kmalloc.c:65-72 | exactly the block of that pointer is given back, nothing is lost and no two neighbours stay free |
| KernelHeap.LiveBlockIsKept | kernel-space/kernel/kmalloc.c:48-72 | an allocation keeps its place and size through any run that does not free it |
| KernelHeap.CoalesceKeeps | kernel-space/kernel/kmalloc.c:32-46 | one pass merges all free neighbours, conserves the total and touches no used block |
| KernelHeapCode.Heap.constructor | kernel-space/kernel/kmalloc.c:6-11 | one free block |
| KernelHeapCode.Heap.SplitBlock | kernel-space/kernel/kmalloc.c:13-30 | the headers after a split, the unsigned subtraction included |
| KernelHeapCode.Heap.CoalesceBlocks | kernel-space/kernel/kmalloc.c:32-46 | the pointer loop merges as specified |
| KernelHeapCode.Heap.Kmalloc | kernel-space/kernel/kmalloc.c:48-63 | the pointer loop finds the first fit; list and result as specified |
| KernelHeapCode.Heap.Kfree | kernel-space/kernel/kmalloc.c:65-72 | frees and coalesces as specified |
| Fat16RoundTrip.WriteFindRead | kernel-space/lib/fat16.c:260-286 | finding and reading a written file gives its data, cut off or filled with zeros to one cluster, and its size, with a cluster chain of its own |
| Fat16RoundTrip.WrittenIsFoundExactlyWhen | kernel-space/lib/fat16.c:92-132 | a new file is found after writing precisely when the directory had a free slot, its name is not the root's, and its formatted name does not start with byte 0xE5 |
| Fat16Names.LostNames | kernel-space/lib/fat16.c:92-286 | on every volume with a free cluster, files by the names 0xE5 and / are written and take a cluster each, and neither is found |
| Fat16RoundTrip.WriteKeepsChains | kernel-space/lib/fat16.c:206-286 | every well-formed chain keeps its links and its contents when a file is written |
| Fat16RoundTrip.WriteKeepsLookups | kernel-space/lib/fat16.c:229-258 | every other name is looked up with the same result in the same unchanged slot |
| Fat16RoundTrip.WriteKeepsEndMark | kernel-space/lib/fat16.c:229-258 | a directory that is marked to its end stays so |
| Fat16RoundTrip.FilesPersist | kernel-space/lib/fat16.c:260-286 | entry and contents of a file survive any number of writes of files with other names |
| Fat16RoundTrip.WrittenFilePersists | kernel-space/lib/fat16.c:260-286 | a written file is still found and read back after any number of later writes of other names |
| Fat16Chains.ReadEndsExactlyWhenAcyclic | kernel-space/lib/fat16.c:171-199 | the read loop ends precisely when it meets no cluster twice; it then goes through one finite chain of different clusters |
| Fat16Chains.ChainHasNoRepeats | kernel-space/lib/fat16.c:186-197 | a chain that ends has no cluster twice |
| Fat16Chains.GeometryIsGood | kernel-space/lib/fat16.c:84-90 | for a usable boot sector table, directory and data region follow one another and no sector number wraps around; where each lies on the disk is Fat16Layout's matter |
| Fat16Layout.BootFields | kernel-space/lib/fat16.c:72-82 | the fields used are the bytes of the boot sector at offsets 11, 13, 14, 16, 17 and 22, and the mark is the eight bytes at 54 |
| Fat16Layout.RegionsAreApart | kernel-space/lib/fat16.c:84-90 | each of the numFats tables, the root directory and the data region are pairwise disjoint, in bytes of the disk |
| Fat16Layout.EntryLayout | kernel-space/lib/fat16.c:206-227 | entry c of the table is the two bytes at 2c behind the reserved sectors |
| Fat16Layout.SlotLayout | kernel-space/lib/fat16.c:92-132 | byte i of slot k of the directory is the byte at 32k + i behind all the tables |
| Fat16Layout.ClusterLayout | kernel-space/lib/fat16.c:171-199 | cluster 2 begins at the first sector boundary at or behind the last slot of the directory, and the others follow it |
| Fat16Layout.ContentsLayout | kernel-space/lib/fat16.c:171-199 | what a chain holds is its clusters one after another, in the order of the links |
| Fat16Layout.FoundExactlyAt | kernel-space/lib/fat16.c:92-132 | a search on a mounted disk finds slot n precisely when that holds the name, in the bytes of the disk, and no slot before it does or is the end mark |
| Fat16Layout.MountedFileIsFound | kernel-space/lib/fat16.c:72-132 | on a disk mounted by its boot sector a file is found exactly where the format puts it |
| Fat16Layout.NameBytes | kernel-space/lib/fat16.c:40-71 | the eleven bytes of an 8.3 name: letters in capitals, and blanks behind both parts |
| Fat16Layout.DirEntryBytes | kernel-space/lib/fat16.c:229-258 | the 32 bytes of a directory entry: name, attribute 0x20, zeros, cluster at 26 and size at 28, the lower bytes first |
| Fat16Layout.WrittenMark | kernel-space/lib/fat16.c:206-286 | after a write the table word of the file's cluster, on the disk, is 0xFFF8 |
| Fat16Layout.WrittenData | kernel-space/lib/fat16.c:260-286 | its cluster, on the disk, holds the data and zeros behind them |
| Fat16Layout.WrittenSlot | kernel-space/lib/fat16.c:229-258 | the first slot that was free, on the disk, holds the file's entry |
| Fat16Layout.FirstFreeByte | kernel-space/lib/fat16.c:229-258 | that slot is the first whose first byte was 0 or 0xE5 |
| Fat16Chains.ClustersDisjoint | kernel-space/lib/fat16.c:187 | two clusters share no sector and lie in the data region |
| Fat16Files.AllocatesLowest | kernel-space/lib/fat16.c:206-227 | the lowest free cluster from 2 on and below the number of table entries modulo 2^16, or 0 if there is none |
| Fat16Files.FreeIsOnNoChain | kernel-space/lib/fat16.c:206-227 | a free cluster is on no well-formed chain |
| Fat16Files.SetEntryIs | kernel-space/lib/fat16.c:216-221 | marking a cluster changes its own table entry, no other, no directory slot and no file data |
| Fat16Files.SetSlotIs | kernel-space/lib/fat16.c:243-253 | writing a slot changes that slot, no other, no table entry and no file data |
| Fat16Files.StoreDataIs | kernel-space/lib/fat16.c:269-281 | the sector loop fills the cluster with the data and zeros and changes no other sector |
| Fat16Files.FindOther | kernel-space/lib/fat16.c:106-127 | a search for another name passes the new entry as it passed the free slot |
| Fat16Code.FileSystem.constructor | kernel-space/lib/fat16.c:72-90 | reads the boot sector and computes the geometry from it; the source does not return from a disk without the mark FAT16 |
| Fat16Code.FileSystem.AllocCluster | kernel-space/lib/fat16.c:206-227 | the scanning loop returns and marks the free cluster of the specification |
| Fat16Code.FileSystem.FindFileNamed | kernel-space/lib/fat16.c:92-132 | the scanning loops find the slot of the specification and copy its entry |
| Fat16Code.FileSystem.CreateDirEntry | kernel-space/lib/fat16.c:229-258 | the first free slot is filled, a full directory is left as it is |
| Fat16Code.FileSystem.ReadFile | kernel-space/lib/fat16.c:171-199 | the chain-following loop ends and the buffer holds the concatenation of the clusters |
| Fat16Code.FileSystem.Create | kernel-space/lib/fat16.c:260-286 | the whole new volume, and success exactly when a cluster was free |
| Fat16Code.Strncmp | shared/string.c:16-22 | equal and without a NUL |
| Fat16Names.FormatsParts | kernel-space/lib/fat16.c:40-71 | the part of a name before the dot and the part behind it, in capitals and padded |
| Fat16Names.NamesAgreeExactlyWhen | kernel-space/lib/fat16.c:40-71 | two 8.3 names are taken for the same file precisely when they differ in case at most |
| CStrings.Tokenizer.Strtok | shared/string.c:139-161 | for any delimiter and for a string or NULL: the token with its NUL in the destination, its result, and the static pointer behind the delimiter |
| Tokens.TokenSplits | shared/string.c:139-161 | the string is delimiters, then the token, which holds none, then nothing or one delimiter and the rest; the token is empty precisely when only delimiters are left |
| CStrings.FormatNameInto | kernel-space/lib/fat16.c:40-71 | name and extension in capitals, padded with blanks to 8 and 3 |
| Stacking.RunsKeepTheStack | kernel-space/kernel/window.c:42-308 | over every run of creating, closing, clicking and moving the mouse: the z counter is one more than the windows and the refused windows together; z-indices are a permutation of 1 to n with at most one focus and distinct ids precisely when the heap has refused no window; and then the compositor meets no empty slot precisely while there are at most 32 windows |
| Stacking.StepKeepsExactlyWhen | kernel-space/kernel/window.c:42-308 | an event keeps the stack precisely when it is not a creation for which kmalloc has no block |
| Stacking.RunCounts | kernel-space/kernel/window.c:42-308 | from any state each refused window leaves a place that nobody takes, over every run |
| Stacking.ThirtyThreeWindowsFault | kernel-space/kernel/window.c:127-153 | a run of 33 creations after which the compositor writes behind its array |
| Stacking.RefusedWindowFaults | kernel-space/kernel/window.c:42-308 | a run with one refused window after which the compositor meets an empty slot although there is but one window |
| Stacking.CompositorDrawsTheStack | kernel-space/kernel/window.c:127-153 | with at most 32 windows each is drawn exactly once, from the bottom to the top but the focused one last; with more the array is overrun |
| Stacking.PlacesAreTaken | kernel-space/kernel/window.c:136-139 | every place from 1 to n is taken |
| ClosedWindows.CloseTakesOut | kernel-space/kernel/window.c:85-112 | closing takes out exactly that window: the others keep their order and all else, and those above it come down by one place |
| ClosedWindows.ClosedIsGone | kernel-space/kernel/window.c:42-112 | a closed window is gone for good: over every run for which the heap has room, no window has its id again |
| Stacking.CloseKeeps | kernel-space/kernel/window.c:85-112 | closing takes out that window, lowers those above it and keeps the stack |
| Stacking.ClickGoesToTheTop | kernel-space/kernel/window.c:270-285 | a click goes to the topmost window under the mouse, or changes nothing |
| Stacking.ClickRaises | kernel-space/kernel/window.c:287-294 | the clicked window comes to the top with the only focus, the others keep their order |
| Stacking.ClickCloses | kernel-space/kernel/window.c:296-300 | on its close button the clicked window is gone |
| Stacking.ClickGrabs | kernel-space/kernel/window.c:302-306 | a click on the title bar grabs the window at that point |
| Stacking.DragFollows | kernel-space/kernel/window.c:251-268 | while the button is held, over any path of the mouse, only grabbed windows move, and each is where the last move puts it |
| Stacking.DraggedByTheMouse | kernel-space/kernel/window.c:251-308 | grabbed and dragged along any path, a window has moved by exactly as much as the mouse since the click |
| Stacking.ReleasedStay | kernel-space/kernel/window.c:251-268 | letting go of the button leaves every window where it is, and however the mouse moves then, none moves before the next click |
| HiddenWindows.DrawnExactlyWhen | kernel-space/kernel/window.c:143-153 | on stacks with hidden windows too: a window without the focus is drawn exactly when it is visible, and the one with the focus exactly when every window above it is visible and without it |
| WindowGeometry.CreatePlaces | kernel-space/kernel/window.c:42-70 | a new window is on top, visible and without focus, 30 pixels below the place asked for |
| WindowGeometry.ClickedExactlyWhen | kernel-space/kernel/window.c:270-285 | a click is for a window precisely when it is on its title bar of 25 rows or its own rows, and on no window above it |
| WindowGeometry.ClosesExactlyWhen | kernel-space/kernel/window.c:296-300 | a click takes a window away precisely when it is on the right 30 pixels of the title bar of the topmost window there, and then that one |
| WindowGeometry.GrabsExactlyWhen | kernel-space/kernel/window.c:302-306 | a click lets a window be dragged precisely when it is the topmost there, on its title bar and not on its close button |
| WindowCode.WindowManager.CreateWindow | kernel-space/kernel/window.c:42-72 | the window is appended on top, without focus; without a block for it the counters move on and the list stays |
| WindowCode.WindowManager.CloseWindow | kernel-space/kernel/window.c:85-112 | unlinking and lowering in the linked list as specified |
| WindowCode.WindowManager.ClickWindow | kernel-space/kernel/window.c:270-308 | choosing, raising, closing or grabbing as specified, offsets included |
| WindowCode.WindowManager.DragWindows | kernel-space/kernel/window.c:251-268 | the loop moves or releases the grabbed windows as specified |
| WindowCode.WindowManager.CompositeWindows | kernel-space/kernel/window.c:127-153 | filling the array and drawing from it as specified, without a NULL |
| LineCode.LineEnds | kernel-space/kernel/window.c:183-205 | a line has max(dx, dy) + 1 points, starts at its start, and is at its target exactly at the end |
| LineCode.PointIsNear | kernel-space/kernel/window.c:183-205 | each point lies within half a pixel of the ideal line, one step along the longer extent per turn |
| Line.ReachesTheTarget | kernel-space/kernel/window.c:190-204 | the loop is at the target after exactly max(dx, dy) turns and not before |
| LineOverflow.SafeExactlyWhen | kernel-space/kernel/window.c:184-203 | no value of the loop leaves 32 bits precisely for these extents: with one of them zero, dx below 2^30 and dy at most 2^30; diagonals below 2^31; else by the largest and least error, which follow from the greatest common divisor of the extents |
| LineOverflow.EveryMultipleIsReached | kernel-space/kernel/window.c:190-204 | along a flat line the error takes every multiple of that divisor within its bounds |
| LineOverflow.Bezout | kernel-space/kernel/window.c:184-188 | the divisor divides both extents and is a combination of them |
| LineOverflow.SafeExactlyUpTo | kernel-space/kernel/window.c:184-203 | a bound on the extents keeps all lines from overflowing 32 bits precisely when it is at most 715827883 |
| LineOverflow.OnePixelMoreOverflows | kernel-space/kernel/window.c:195 | with extents 715827884 and 1 the doubled error overflows |
| LineCode.PutAllIs | kernel-space/kernel/window.c:161-165 | a pixel has the colour exactly when a point inside the window lies on it, and else keeps its own |
| LineCode.HeaderRowsAreKept | kernel-space/kernel/window.c:161-165 | where the buffer fits and the heap has a block for it, points of whatever coordinates stay in it, and up to a width of 2^31 the header rows keep their bytes |
| PixelBuffer.AllLandExactlyWhen | kernel-space/kernel/window.c:42-165 | each pixel inside a window has an index below the 32-bit buffer size precisely when the dimensions meet a condition on how size and index wrap; whether there is such a buffer is for the heap to say |
| WindowGeometry.RowsFollow | kernel-space/kernel/window.c:161-165 | up to a width of 2^31, where all pixels land, the byte moves from pixel to pixel by as many rows and columns as the pixel does |
| WindowGeometry.DistinctExactlyWhen | kernel-space/kernel/window.c:51-165 | of the windows whose pixels all land, precisely those with at most one row or of width at most 2^31 have a byte of its own for each pixel |
| WindowMemory.AllOwnedExactlyWhen | kernel-space/kernel/window.c:51-165 | for every heap: each pixel inside a window is a byte of the block that kmalloc handed out, and of no other live block, precisely when the window is empty or that condition holds and some free block is larger than the buffer |
| WindowMemory.OwnByteExactlyWhen | kernel-space/kernel/window.c:51-165 | one pixel is such a byte precisely when the pointer is not NULL and the index is below the size |
| WindowMemory.LargeWindow | kernel-space/kernel/window.c:51-165 | a window of 2048 by 1536 meets the condition on its dimensions, and no heap has a buffer for it |
| WindowMemory.FourthWindow | kernel-space/kernel/window.c:51-165 | a fresh heap serves three windows of 1024 by 768, all of whose pixels are their own, and not a fourth |
| WindowMemory.PixelsStayOwned | kernel-space/kernel/window.c:51-165 | over every run of the heap in which the buffer is not freed its pixels stay in that one live block |
| PixelBuffer.WrappedWindow | kernel-space/kernel/window.c:51-165 | a window of 65537 by 65511 has a buffer of 65536 bytes, and its first pixel is byte 1638425 |
| LineCode.WindowBuffer.constructor | kernel-space/kernel/window.c:42-53 | a zeroed buffer of the 32-bit size from the heap, or NULL and no bytes, for all dimensions and heaps |
| LineCode.WindowBuffer.PutPixel | kernel-space/kernel/window.c:161-165 | one byte of the buffer for a point inside the window whose byte is in it, nothing for a point outside |
| LineCode.WindowBuffer.DrawLine | kernel-space/kernel/window.c:183-205 | for precisely the lines without overflow whose points stay in the buffer: the loop ends and draws exactly the points of the line |
| BrainfuckMeaning.MachineMeansTheTree | user-space/programs/bf.c:22-71 | for every program with matching brackets, input and start state: the pc machine ends in a state exactly when the structured meaning, which runs loops as loops, does; what single commands do BrainfuckOutput states |
| BrainfuckOutput.DotPrints | user-space/programs/bf.c:33-36 | a step on '.' puts the current cell behind all that was printed before, and changes nothing else but the pc |
| BrainfuckOutput.CommaTakes | user-space/programs/bf.c:38-42 | a step on ',' stores the next byte of the input in the current cell, and only there, and counts it |
| BrainfuckOutput.CountersWrap | user-space/programs/bf.c:25-32 | the four counting commands go up or down by one modulo 256, on the current cell or the pointer alone |
| BrainfuckOutput.OthersMoveThePc | user-space/programs/bf.c:44-70 | brackets change the pc at most, as their test says, and every other character is passed over |
| BrainfuckOutput.OutputGrows | user-space/programs/bf.c:22-71 | over every run the output grows at its end only, and the number of bytes taken never falls |
| BrainfuckOutput.OnlyTakenBytesMatter | user-space/programs/bf.c:38-42 | over every run the bytes taken are the next ones of the input in order: inputs that agree on them give the same run |
| BrainfuckOutput.ClearLoopClears | user-space/programs/bf.c:22-71 | the program [-] ends on every tape, with the current cell 0 and all else unchanged |
| BrainfuckOutput.CatPrintsTheInput | user-space/programs/bf.c:22-71 | the program ,[.,] ends having printed exactly its input up to the first 0, in order |
| BrainfuckMeaning.NeverStuck | user-space/programs/bf.c:44-70 | no scan of such a program leaves it, whatever the state |
| BrainfuckMeaning.CancellingKeepsTheOutcome | user-space/programs/bf.c:22-71 | taking adjacent commands that undo each other out of a program, again and again, changes no state that the pc machine ends in |
| Brainfuck.ScansAreInverse | user-space/programs/bf.c:44-68 | forward and backward scan are inverse on matching brackets and stay in the program |
| Brainfuck.BalancedIsATree | user-space/programs/bf.c:44-68 | brackets match exactly when the text is that of a tree |
| BrainfuckMeaning.MachineFollows | user-space/programs/bf.c:22-71 | whatever the structured meaning gives for a part of the program, the machine reaches at the end of that part |
| BrainfuckMeaning.TreeFollows | user-space/programs/bf.c:22-71 | whatever halts from the start of a part has passed its end in the state of the structured meaning |
| BrainfuckCode.Interpreter.FindClose | user-space/programs/bf.c:44-55 | the depth-counting loop finds the matching bracket and ends |
| BrainfuckCode.Interpreter.FindOpen | user-space/programs/bf.c:57-68 | the same backwards |
| BrainfuckCode.Interpreter.Run | user-space/programs/bf.c:16-71 | for a program that ends, the interpreter's loop ends in the state of the structured meaning, tape, output and bytes taken included |
| TetrisRuns.RunsKeepTheBoard | user-space/programs/tetris.c:276-370 | over every run of keys and frames: no row is full, the falling piece overlaps nothing while the game lasts, and filled cells are the visible cells of all landed pieces less ten a cleared line |
| TetrisRuns.GravityKeeps | user-space/programs/tetris.c:352-367 | one step of gravity: at most four rows are cleared, and filled cells grow by the visible cells less ten for each |
| TetrisRuns.InputKeeps | user-space/programs/tetris.c:276-307 | a key moves the piece to a free place and changes nothing else; the space bar takes it down as far as it goes |
| TetrisRuns.RunsKeepTheScore | user-space/programs/tetris.c:126-134 | over every run the level is a tenth of the lines, the speed that of the level, and the score between 100 points a line and 200 points a line times the level plus one |
| TetrisRuns.LockAdds | user-space/programs/tetris.c:83-92 | locking a free piece adds its visible cells |
| TetrisRuns.ClearedIsFilled | user-space/programs/tetris.c:94-114 | clearing takes ten cells a full row |
| TetrisRuns.ClearedHasNoFullRow | user-space/programs/tetris.c:94-114 | no row is full after clearing |
| Tetris.AtMostFourFull | user-space/programs/tetris.c:83-92 | locking on a board without full rows fills at most four |
| TetrisRules.PieceIsItsSquares | user-space/programs/tetris.c:28-67 | in each of its four positions each of the seven pieces is the four squares listed, and nothing outside its grid |
| TetrisRules.TurnsExactlyWhen | user-space/programs/tetris.c:28-32 | the key for turning turns a piece clockwise precisely when neither its position nor the next is the last of piece 5 or the second of piece 6: these two, mirror images of each other, are exchanged in the table |
| TetrisRules.FitsExactlyWhen | user-space/programs/tetris.c:69-81 | a piece collides precisely when one of its squares is beside or below the board or on a filled cell; above the board it does not |
| TetrisRules.KeysMove | user-space/programs/tetris.c:282-301 | 'a' goes one cell left, 'd' right and 's' down, precisely when the piece fits there; keys without a meaning do nothing |
| TetrisRules.TurnKey | user-space/programs/tetris.c:288-298 | 'w' puts the piece into its next position: where it is if it fits, else one cell left, else one right, else not at all |
| TetrisRules.SpaceDrops | user-space/programs/tetris.c:302-305 | the space bar takes the piece to the lowest row that it reaches through rows it fits in |
| TetrisRules.LockedCells | user-space/programs/tetris.c:83-92 | after locking, the cells under the squares have the piece's colour and all others their own |
| TetrisRules.RowsFall | user-space/programs/tetris.c:94-114 | a row that is not full falls by the number of full rows below it, and what is free on top is empty |
| TetrisRules.LinesPay | user-space/programs/tetris.c:126-134 | one to four lines pay 100, 300, 500 and 800 points times the level plus one, and the level makes the fall faster by two frames each, down to two |
| TetrisRules.LandingMeans | user-space/programs/tetris.c:358-364 | a piece that cannot fall is locked where it is, its lines are cleared and paid at the level before, and the piece announced comes in at the top; the game is over exactly if it does not fit |
| TetrisRules.NextIsDrawn | user-space/programs/tetris.c:62-65 | the piece announced then is bits 16 to 30 of the generator's next state, modulo 7 |
| TetrisRules.FallsOnTime | user-space/programs/tetris.c:351-357 | a piece that fits below falls by one row in every dropInterval frames |
| TetrisRules.OverIsFinal | user-space/programs/tetris.c:279-352 | a game that is over stays as it is, over every run |
| TetrisRules.GameStarts | user-space/programs/tetris.c:322-330 | every game begins on an empty board with nothing scored and 20 frames a row, and whatever the seed the first piece fits: no game is over before it begins |
| TetrisRules.FirstRandoms | user-space/programs/tetris.c:62-65 | the first values of the generator, and the first piece that it draws from state 1 |
| TetrisRules.GeneratorIsInjective | user-space/programs/tetris.c:63 | no two states of the generator have the same successor |
| TetrisCode.Play.IsBlocked | user-space/programs/tetris.c:69-81 | tells whether some cell of the piece is off the board or on a filled cell |
| TetrisCode.Play.LockPiece | user-space/programs/tetris.c:83-92 | the board with the piece's cells in it |
| TetrisCode.Play.ClearRows | user-space/programs/tetris.c:94-114 | ends although rows are looked at again, drops all full rows in order and pads on top; the result is their number |
| TetrisCode.Play.SpawnPiece | user-space/programs/tetris.c:116-124 | the next piece at the top, game over if it is blocked |
| TetrisCode.Play.HandleInput | user-space/programs/tetris.c:276-307 | the moves of the specification; the hard drop ends |
| TetrisCode.Play.GravityStep | user-space/programs/tetris.c:352-367 | the step of the specification, the score table indexed in range |
| Decimal.RoundTripExactlyWhen | shared/string.c:81-135 | reading what was written gives the number back, precisely for every 32-bit number but the least |
| Decimal.ItosIsDecimal | shared/string.c:81-101 | what is written is the canonical decimal text, but "-(" for the least number |
| Decimal.DecimalIsCanonical | shared/string.c:81-101 | digits only, no leading zero but for zero, a minus exactly in front of negative numbers |
| Decimal.ReadsTheDigits | shared/string.c:121-135 | reading any text: after at most one minus, the digits up to the first other character count by their places, in 32-bit two's complement, and what follows does not count |
| DecimalCode.Strrev | shared/string.c:71-79 | the string is reversed in place |
| DecimalCode.WriteDecimal | shared/string.c:81-101 | the digit loop and the reversal leave that text in the buffer |
| DecimalCode.ReadDecimal | shared/string.c:121-135 | for every text the value of its leading digits with its sign, in 32-bit two's complement |

## Left out

- Boot, descriptor tables, interrupt controllers, exception dumps, assembly stubs, TLB behaviour, turning paging on and off, and port I/O: hardware plumbing. The disk is a map that stores every sector written to it.
- Register contents that exec sets up, its argument copied to the user stack, and reading the file within exec: the memory part takes the file's bytes as given.
- The contents of pages that hold code and data of the kernel itself; the heap and the process list are modelled apart from the page tables, so that a fault in one does not show in another.
- Running out of frames: allocate_frame returns 0 and the callers go on; states after that are not described.
- PageTables.Alloc: does not describe what callers do with the result 0.
- AddressSpace.Sbrk: is not defined where the mapping loop of the source does not end; ExecImage.SbrkEndsExactlyWhen says when that is.
- Pages below 0x40000000 that a wrapped sbrk opens are shared by a fork, as the whole lower half is; that processes with a common ancestor see each other's stores there is not a theorem of its own.
- Fork reads the directory entry of each new frame without checking it. In every run of the model these entries are present or the write goes to frame 0, which nothing owns.
- Pid, window id and quantum counters are unbounded in the model; the source's 32-bit counters would wrap around after 2^32 steps.
- The memory of control blocks: a process that is killed while its read is pending stays in the wait slot of the source as a pointer to freed memory. In the model a reader that is no longer listed is not changed.
- kill with pid 0, and reparenting for an absent pid with children: the source reads an unset variable there, and no reachable state has such children for a pid of at least 1.
- wait for a pid that is not listed: the process waits until some other event makes it ready, as in the source; no theorem says that it wakes.
- SchedulerCode.Scheduler.RemoveProcess: clearing the page directory (Teardown has it), closing the descriptors and freeing the control block are left to their own models or out.
- SchedulerCode.Scheduler.SigintForeground: closing the windows of the process is not modelled.
- SchedulerCode.Scheduler.StdinWake: the bytes copied to the reader's buffer are not modelled, only their number.
- WindowCode.WindowManager.ClickWindow: the click event queued for the window is not modelled.
- WindowCode.WindowManager.DragWindows: the shape of the cursor, which the same loop sets, is not modelled.
- What NULL from kmalloc does to memory: the fields of a control block or window and the zeros of a pixel buffer are then written from address 0 on. The model has their effect on the list, the counters and the window's own bytes, not on what lies at those addresses.
- SchedulerCode.Scheduler.AddNew: the kernel stack is a parameter; where kmalloc has no room for it, it is 4096.
- LineCode.WindowBuffer.constructor: the block of the window itself, requested before that of its pixels, is part of the heap it is given.
- The sector buffers and entries that fat16.c takes from the heap without looking at the result are taken as granted and distinct.
- The bytes of the stdin buffer, the file descriptors of processes, and closing them when a process ends.
- remove_window_process: follows the list through a window it has just freed, so it has no meaning without a model of reused memory; sigint_foreground is modelled without it.
- KernelHeap.Malloc: headers are kept by address, not as bytes; where a request leaves no room for a header, the overlap of the new header with its neighbour is not modelled, since the invariant is lost at that step already.
- The user-space allocator, whose search loop follows no usable order.
- fat16_read_folder, the second copy of the table (the source writes only the first), sub-directories, and names that overflow the buffers of fat16_format_name.
- Fat16Code.FileSystem.ReadFile: takes a chain that ends and a buffer that holds it; Fat16Chains.ReadEndsExactlyWhenAcyclic says for which clusters there is one.
- Clusters beyond the end of the disk: the allocator of the source counts table entries, not clusters that exist.
- Window coordinates are unbounded integers; the source adds them in 32 bits. In put_pixel a row number within 25 of 2^31 overflows a signed sum, which C leaves undefined; the model lets it wrap around.
- Event queues, drawing of window frames, text and rectangles, the mouse cursor, and desktop icons.
- Brainfuck programs without matching brackets, whose scans leave the program, and reads that deliver no byte: input is an endless stream.
- BrainfuckCode.Interpreter.Run: is stated for programs that end; BrainfuckMeaning.MachineMeansTheTree says when that is.
- Tetris drawing, the timing of frames, and overflow of the score.
- TetrisCode.Play.AwardLines: the score is unbounded.
- DecimalCode.ReadDecimal: takes signed overflow, which C leaves undefined, to wrap around.
- Floating-point code, hexadecimal printing, and the other string functions.
