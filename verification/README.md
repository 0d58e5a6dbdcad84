# AquaCore kernel: a verified model

AquaCore is a small RV32 kernel: Sv32 address spaces over a bitmap page
allocator, processes that fork, exec, wait and exchange messages, a node file
system with mounts and a persistent image, and a shell with a command history.
This project models its stateful cores in Dafny and proves what they guarantee
over whole runs.  Table sizes (process slots, nodes, pages, history lines,
console ring) are parameters, so every result holds for all sizes.

`dafny verify dfyconfig.toml` checks everything.

## How it is organised

The kernel runs with interrupts off, so each stretch of a system call between
two calls of `yield` is one atomic step.

| files | part of the kernel |
|---|---|
| `ProcessModel`, `ProcessInvariant`, `ProcessRuns`, `ProcessOutcomes`, `ProcessKernel`, `ConsoleRing` | processes: wait and wakeup, zombies, mailboxes, scheduling, console input |
| `PageTables`, `PhysicalMemory`, `AddressSpaces`, `ProcessMemory`, `Protection` | the frame allocator, Sv32 tables, create/fork/exec/recycle, access rights |
| `FsPath`, `FsTree`, `FsOps`, `FsData`, `FsImage`, `Nodefs`, `Mounts`, `Vfs`, `VfsRuns`, `FsInit` | the file system: paths, tree, contents, image, mounts, descriptors and their runs |
| `System` | the three together: one run of system calls over processes, memory and files |
| `History`, `HistoryRing`, `HistoryFile` | the shell's command history and its file |
| `PathNormalizer` | the user runtime's path resolution |
| `Calendar`, `DateText` | 64-bit division and the UTC date text |
| `Types` | C scalars and strings |

Where the C code updates state, the model is a class whose methods have the
kernel's own loops and branches; each method is proved equal to a function on
values, and the theorems are about those functions.  A panic is a result of its
own (`panicked`, `None` or `false`), not a precondition.

## Main results

* **Processes.** In every state reachable from boot: pids are slot numbers,
  parent links name live processes and form a forest, a process waits exactly if
  it has a reason, nobody sleeps through the event it waits for
  (`ProcessRuns.Reachable`).  A zombie goes exactly by its parent's waitpid or its
  parent's end (`ZombieStep`), its pid is not reused before (`ZombieStays`,
  `ZombieKeepsPid`), and each life of a pid is collected at most once
  (`CollectedAtMostOnce`).  Messages arrive exactly once and in order
  (`MailExactlyOnce`), and so do console characters (`CharactersInOrder`).  What
  each call returns in every case, and what becomes of every slot, is stated field
  by field in `ProcessOutcomes`.
* **Scheduling.** The documents promise time-sliced round robin
  (`docs/memory-process.md`, `docs/process-management.md`).  The scan of `yield`
  starts at the caller's own slot, so a runnable caller keeps the CPU:
  `NoRoundRobin` is a run of two steps in which the promise fails,
  `TickSwitchesIff` says exactly in which states and with which input a timer
  interrupt does hand over, and `BoundedBypass` is what remains true: fewer
  switches than slots can pass over a ready process.
* **Protection.** Under the tables of any process, in any state, user mode
  fetches, loads and stores on exactly its own image pages and faults everywhere
  else; no frame it reaches holds a table or is reached by another process; the
  kernel fetches only from its own memory (`Protection.ProcessIsConfined`,
  `ReachIsPrivate`).
* **Memory.** After any run of create, fork, exec and recycle the set bits of
  the bitmap are the disjoint union of what the slots own; nothing panics but
  exhaustion.  `create_process` leaks what it allocated exactly if the root
  entry is missing while a slot is free (`ProcessMemory.Kernel.CreateProcess`);
  `fs_init` mounts a root file system and a tree always has its root, so that
  case does not arise (`Vfs.Table.GetRootEntry`, `System.NothingLeaks`).  The
  reference for page tables is the walk of section 4.3.2 of the RISC-V Privileged
  Architecture, version 1.12.
* **Files.** The slot array is always a tree, and stands for a prefix-closed map
  from component lists to entries; each operation changes one key, under exact
  conditions.  File contents refine a byte string under any interleaving, where
  two writes in a row are one write of both buffers and what is written is read
  back (`WriteTwice`, `WriteThenRead`).  No
  run ever turns an open descriptor to another file, and through forks, dup2,
  unlinks and writes by others its reads deliver what the byte string holds at
  its own offset (`VfsRuns.DescriptorStays`, `ReadsTheString`).  A sync that
  reports success is what a reboot finds; after one that was cut short a reboot
  finds new nodes up to one point and old ones after it (`FsImage.CutBoot`).
* **The whole.** One run of system calls and interrupts from power-on
  (`SystemRuns.PowerOn`, `System.Run`) is a run of the process protocol and a run
  of the descriptor tables, and at every moment the frames in use are exactly
  those of the processes in the table, each with one owner, while a free slot has
  neither frames nor descriptors (`System.NothingLeaks`).  No call of one process
  changes what another sees in memory, nor its descriptors: each process that
  stays keeps its address space, every byte in it and its descriptors, but for the
  caller of exec and the child of a spawn (`System.Perform`, `KeptSeesNoChange`).
* **User code.** The history round trip holds exactly for histories without
  carriage returns, hence for every history the shell can have, since it ends a
  line at one (`History.ReachableRoundTrip`); it holds through the shell's own
  open, write and reads (`HistoryFile.SaveAndLoad`).  The in-place path normaliser
  computes a stack evaluation and cannot overflow; what one more `.`, `..` or name
  does to any path is `OneMoreName`.  The calendar loops invert the Gregorian day
  number, which has a closed form; the weekday is Zeller's, and the text reads back
  as the date and time it was made from (`TextReadsBack`, `TextIsUnique`).

What the code does that a caller may not expect, and the contracts say: an open
that finds no free descriptor still creates or empties the file
(`Vfs.Table.Open`, `Vfs.OpenCreatesAnyway`; `FsOps.OpenChangesMapIff` says when
it changes anything); a descriptor opened with neither read nor write flag cannot
be read, although `nodefs_open` defaults to reading, because `fs_open` stores the
caller's flags (`Vfs.Table.Read`); `//tmp` is not inside the mount `/tmp`
(`Mounts.DoubleSlashMissesMount`), because routing compares characters: a path
reaches its mount exactly if its components start with the mount's and no slash
is doubled in that part (`Mounts.MatchesIff`).

## Model

| member | source | states |
|---|---|---|
| Console.Ring.Pop | src/kernel/trap/syscall_console.c:13-22 | takes the oldest queued character, or nothing from an empty ring |
| Console.Ring.Push | src/kernel/trap/syscall_console.c:31-33 | appends behind the newest, whatever the head position |
| Console.Ring.Fill | src/kernel/trap/syscall_console.c:24-34 | appends as many of the available characters as there is room for, in order |
| ProcessInvariant.EndAt | src/kernel/proc/process.c:654-689 | what ending a process does to any slot: its children are orphaned, its waiting parent wakes, nobody else changes |
| ProcessInvariant.EndKeeps | src/kernel/proc/process.c:654-689 | ending a live process keeps forest, live parents and all wait conditions |
| ProcessInvariant.FreeZombies | src/kernel/proc/process.c:142-181 | freeing any zombies keeps the invariant |
| ProcessInvariant.SpawnKeeps | src/kernel/proc/process.c:380-402 | a new child under a live, awake parent keeps the invariant |
| ProcessInvariant.SleepKeeps | src/kernel/proc/process.c:718-726 | falling asleep keeps the invariant when the awaited event has not happened |
| ProcessInvariant.WakeKeeps | src/kernel/proc/process.c:641-651 | waking sleepers and filling or emptying mailboxes keeps the invariant |
| ProcessInvariant.WaitpidKeeps | src/kernel/proc/process.c:692-728 | a waitpid step keeps the invariant, so no child exit is missed |
| ProcessInvariant.KillKeeps | src/kernel/proc/process.c:783-816 | a kill step, of another process or oneself, keeps the invariant |
| ProcessInvariant.RecvKeeps | src/kernel/proc/process.c:756-781 | a receive step keeps the invariant: only empty mailboxes are slept on |
| ProcessInvariant.GetcharKeeps | src/kernel/trap/syscall_console.c:45-60 | a getchar step keeps the invariant: one sleeps on the console only if the ring is empty |
| ProcessInvariant.StepKeeps | src/kernel/proc/process.c:585-816 | every step of every process keeps the invariant |
| ProcessRuns.BootOk | src/kernel/kernel.c:196-200 | idle in slot 0, the shell current in slot 1, and the invariant holds |
| ProcessRuns.Reachable | src/kernel/proc/process.c:585-816 | the invariant (pids, live parents, forest, wait reasons, no lost wakeup) in every state reachable from boot |
| ProcessRuns.AncestorRank | src/kernel/proc/process.c:679-689 | every ancestor has a smaller rank |
| ProcessRuns.NoCycles | src/kernel/proc/process.c:679-689 | no process is its own ancestor, at any distance |
| ProcessRuns.StepEffect | src/kernel/proc/process.c:142-816 | all that one step can do to one slot: hand it out to a ready child of the caller, collect it, deliver or take its message |
| ProcessRuns.ExitMakesZombie | src/kernel/trap/syscall_process.c:182-190 | exit under a parent leaves a zombie of that parent and wakes the parent if it waits for it |
| ProcessRuns.ZombieStep | src/kernel/proc/process.c:169-181 | unless the kernel shuts down, a step leaves a zombie, its pid withheld, exactly if it neither collects it nor ends its parent |
| ProcessRuns.KillInitSpares | src/kernel/proc/process.c:793-795 | the refused kill of init leaves the zombies of init |
| ProcessRuns.ZombieStays | src/kernel/proc/process.c:169-181 | the same over every run of such steps |
| ProcessRuns.ZombieKeepsPid | src/kernel/proc/process.c:380-402 | at no point of such a run is the pid handed out |
| ProcessRuns.CollectedAtMostOnce | src/kernel/proc/process.c:692-728 | in every run from boot, since a pid was last handed out a waitpid has collected it at most once, and not while it is in use |
| ProcessRuns.MailStep | src/kernel/proc/process.c:731-781 | one step keeps received plus pending equal to sent |
| ProcessRuns.MailExactlyOnce | src/kernel/proc/process.c:731-781 | in every run from boot, what a process received in its lifetime plus the pending message is, in order and with senders, what was sent to it |
| ProcessRuns.PickIsFirst | src/kernel/proc/process.c:588-596 | the cyclic scan takes the ready slot nearest to its origin |
| ProcessRuns.DispatchChoice | src/kernel/proc/process.c:585-638 | only a runnable process with positive pid is dispatched, a runnable caller stays, and yield waits only if nobody is ready |
| ProcessRuns.TickSwitchesIff | src/kernel/trap/trap_handler.c:91-97 | a timer interrupt changes the current process exactly if that one can neither run nor is woken by the input taken, and some other can or is; stated on the state and input it finds |
| ProcessRuns.NoRoundRobin | src/kernel/proc/process.c:588-616 | a concrete run in which the timer leaves the CPU with a process although another is ready |
| ProcessRuns.CloserByDispatch | src/kernel/proc/process.c:588-596 | a switch that passes over a ready slot brings the scan closer to it |
| ProcessRuns.PassedOverStep | src/kernel/proc/process.c:585-638 | one step shrinks the cyclic distance to a slot that stays ready by at least one per switch |
| ProcessRuns.BoundedBypass | src/kernel/proc/process.c:585-638 | in every run fewer switches than slots pass over a process that stays ready |
| ProcessOutcomes.SpawnOutcome | src/kernel/proc/process.c:380-402 | clone and fork take the lowest slot that is free or can be freed, fail exactly if there is none, and leave there a ready child of the caller without mail; every other slot is only swept |
| ProcessOutcomes.SpawnThenWait | src/kernel/trap/syscall_process.c:215-221 | a waitpid for the new child right after sleeps until it ends |
| ProcessOutcomes.WaitpidOutcome | src/kernel/proc/process.c:692-728 | waitpid returns the lowest ended child asked for, fails exactly if no child is asked for, sleeps otherwise |
| ProcessOutcomes.WaitpidChanges | src/kernel/proc/process.c:692-728 | nothing if it fails, one slot freed if it collects, the caller asleep with its question noted and the CPU handed over if it sleeps |
| ProcessOutcomes.CollectsEnded | src/kernel/proc/process.c:700-715 | a parent's waitpid for its ended child returns it at once |
| ProcessOutcomes.ExitOutcome | src/kernel/trap/syscall_process.c:168-191 | never returns; a zombie under a parent, a free slot without one, shutdown for init; children orphaned, the waiting parent ready |
| ProcessOutcomes.KillOutcome | src/kernel/proc/process.c:783-816 | -1, -2 and -3 exactly when; then nothing changes; otherwise the target is gone, its children are orphaned, its waiting parent is ready and nobody else changes; a kill of oneself does not return |
| ProcessOutcomes.SendOutcome | src/kernel/proc/process.c:731-753 | -1, -2 and 0 exactly when; a refused send changes nothing; an accepted one leaves the message with its sender and the receiver ready if it waited |
| ProcessOutcomes.RecvOutcome | src/kernel/proc/process.c:756-781 | delivers the pending message and empties the mailbox, or sleeps exactly if there is none |
| ProcessOutcomes.SendThenRecv | src/kernel/proc/process.c:731-781 | a message sent to oneself is received next, with sender and payload |
| ProcessOutcomes.GetcharOutcome | src/kernel/trap/syscall_console.c:45-60 | delivers the oldest character in the ring or taken now, sleeps exactly if there is none |
| ProcessOutcomes.TickOutcome | src/kernel/trap/trap_handler.c:91-97 | takes as many characters as there is room for, wakes the console waiters if any is there, and leaves the CPU with the next process that can run |
| ProcessOutcomes.CharactersInOrder | src/kernel/trap/syscall_console.c:13-60 | in every run the characters delivered followed by the ring are, in order, those taken from the console |
| ProcessOutcomes.ExecOutcome | src/kernel/proc/process.c:545-552 | an exec touches nobody else's slot, and a failed one nothing |
| ProcessOutcomes.DispatchHands | src/kernel/proc/process.c:585-638 | the CPU goes to the next process that can run, cyclically, or stays if nobody can |
| ProcessKernel.Kernel.constructor | src/kernel/kernel.c:256-264 | the kernel's loops reach exactly the boot state of the model |
| ProcessKernel.Kernel.ReapExitedProcesses | src/kernel/proc/process.c:169-181 | the loop frees exactly the zombies without a parent |
| ProcessKernel.Kernel.FindProcessByPid | src/kernel/proc/process.c:81-93 | the loop finds the first slot in use with that pid |
| ProcessKernel.Kernel.WakeupInputWaiters | src/kernel/proc/process.c:641-651 | the loop wakes exactly the console waiters |
| ProcessKernel.Kernel.Orphan | src/kernel/proc/process.c:679-689 | the loop clears exactly the links to that parent |
| ProcessKernel.Kernel.Notify | src/kernel/proc/process.c:654-676 | the loop wakes exactly the parent if it waits for this child or any |
| ProcessKernel.Kernel.Schedule | src/kernel/proc/process.c:588-635 | the scan and switch are the model's dispatch; a process switched to gets a full slice, a caller that goes on one only if its own is used up |
| ProcessKernel.Kernel.YieldCpu | src/kernel/proc/process.c:585-638 | reaping, then dispatch |
| ProcessKernel.Kernel.PollConsoleInput | src/kernel/trap/syscall_console.c:24-39 | filling the ring and waking are the model's poll |
| ProcessKernel.Kernel.EndProcess | src/kernel/trap/syscall_process.c:182-189 | orphaning, marking and notifying in the kernel's order |
| ProcessKernel.Kernel.SyscallExit | src/kernel/trap/syscall_process.c:168-191 | the exit step, with shutdown when init exits |
| ProcessKernel.Kernel.SpawnChild | src/kernel/trap/syscall_process.c:206-222 | reap, take the lowest free slot, link to the caller: the spawn step |
| ProcessKernel.Kernel.SyscallWaitpid | src/kernel/proc/process.c:692-728 | the scan for children is the waitpid step |
| ProcessKernel.Kernel.SyscallKill | src/kernel/proc/process.c:783-816 | the kill step with its three error codes and the self-kill |
| ProcessKernel.Kernel.SyscallSend | src/kernel/proc/process.c:731-753 | the send step |
| ProcessKernel.Kernel.SyscallRecv | src/kernel/proc/process.c:756-781 | the receive step |
| ProcessKernel.Kernel.SyscallGetchar | src/kernel/trap/syscall_console.c:45-60 | the getchar step |
| ProcessKernel.Kernel.TimerInterrupt | src/kernel/trap/trap_handler.c:91-97 | the timer step, with a reschedule due exactly if the process that runs or is woken has one tick left; what is left of every slice after it |
| ProcessKernel.Kernel.SchedulerOnTimerTick | src/kernel/proc/process.c:563-577 | the running process pays one tick; the last one makes a reschedule due |
| ProcessKernel.Kernel.ResetForExec | src/kernel/proc/process.c:549-552 | the exec step on the table, with a full slice |
| PageTables.ReadAfterWrite | src/kernel/mm/memory.c:131 | a little-endian table word reads back, and no other word of the frame changes |
| PageTables.DecodeEncode | src/kernel/mm/memory.c:136 | frame and flags survive encoding, and the entry is valid with the mapping's own permissions |
| PageTables.PteBitsLossless | src/kernel/mm/memory.c:136 | the same for the kernel's shifts and masks on 32-bit words |
| PageTables.SpaceTranslates | src/kernel/mm/memory.c:120-137 | over well-formed tables the Sv32 walk yields the recorded mappings whose flags make a leaf, and faults everywhere else |
| PageTables.UpdateIsFunctional | src/kernel/mm/memory.c:120-137 | mapping a page, with any flags, moves that page and no other, even when a level-0 table is added |
| PageTables.LinkTable | src/kernel/mm/memory.c:129-132 | hanging a zeroed level-0 table changes no translation |
| PageTables.StoreLeaf | src/kernel/mm/memory.c:134-136 | storing a level-0 entry changes one page's mapping |
| PageTables.ClearLeaf | src/kernel/proc/process.c:120 | zeroing a level-0 entry unmaps one page |
| PageTables.ClearLink | src/kernel/proc/process.c:131 | zeroing a root entry drops exactly that table |
| PageTables.SpaceFrame | src/kernel/proc/process.c:427-459 | tables depend on their own frames only |
| PhysicalMemory.BitUpdate | src/kernel/mm/memory.c:13-23 | setting or clearing a bit of a byte leaves the other seven |
| PhysicalMemory.IndexUpdate | src/kernel/mm/memory.c:13-23 | setting or clearing an index of the bitmap leaves all others |
| PhysicalMemory.ManagedRange | src/kernel/mm/memory.c:25-59 | the bitmap has a bit for every managed page, wastes less than one page of bits, and does not overlap them |
| PhysicalMemory.Ram.constructor | src/kernel/mm/memory.c:50-56 | a cleared bitmap means no frame is in use |
| PhysicalMemory.Ram.BitmapTest | src/kernel/mm/memory.c:13-15 | a bit is set exactly if its frame is in use |
| PhysicalMemory.Ram.ScanFreeRun | src/kernel/mm/memory.c:69-79 | the running counter finds the lowest run of free frames, or there is none |
| PhysicalMemory.Ram.AllocPages | src/kernel/mm/memory.c:61-90 | the lowest free run, marked and zeroed; panics exactly if there is none or the count is zero |
| PhysicalMemory.Ram.AllocPage | src/kernel/mm/memory.c:61-90 | one frame: the lowest free one; panics exactly if every frame is in use |
| PhysicalMemory.Ram.FreePages | src/kernel/mm/memory.c:92-118 | frees exactly the given frames; panics exactly on zero, misaligned, foreign or free pages |
| PhysicalMemory.Ram.MapPage | src/kernel/mm/memory.c:120-137 | updates the mapping of one page, keeps the existing tables, takes at most fresh frames; panics only if misaligned or out of memory |
| PhysicalMemory.Ram.LinkIfAbsent | src/kernel/mm/memory.c:128-132 | allocates a level-0 table only where there is none, without changing a translation |
| AddressSpaces.KernelMapIs | src/kernel/proc/process.c:272-285 | every process maps kernel memory (V R W X), MMIO and RTC (V R W) to themselves, and nothing else outside the user region |
| AddressSpaces.SpaceOkGrows | src/kernel/proc/process.c:288-298 | one more page in a fresh frame keeps an address space complete |
| AddressSpaces.SpaceOkFrame | src/kernel/proc/process.c:96-139 | an address space survives any change outside its own frames |
| AddressSpaces.AcquireSpace | src/kernel/proc/process.c:438-439 | giving fresh frames to a slot keeps exact ownership |
| AddressSpaces.ReleaseSpace | src/kernel/proc/process.c:96-139 | taking a slot's frames back keeps exact ownership |
| AddressSpaces.ImagePage | src/kernel/proc/process.c:289-294 | page i of an image byte for byte, zero past its end |
| ProcessMemory.Kernel.constructor | src/kernel/mm/memory.c:25-59 | with no process no frame is owned |
| ProcessMemory.Kernel.MapRange | src/kernel/proc/process.c:272-276 | an identity-mapping loop adds exactly that range |
| ProcessMemory.Kernel.BuildKernelTable | src/kernel/proc/process.c:428-436 | a fresh root table with exactly the kernel map |
| ProcessMemory.Kernel.AddUserPage | src/kernel/proc/process.c:452-458 | a fresh frame with the given contents becomes the next user page |
| ProcessMemory.Kernel.MapImage | src/kernel/proc/process.c:288-298 | the image loop loads exactly the zero-padded pages of the image |
| ProcessMemory.Kernel.FreeUserPages | src/kernel/proc/process.c:500-518 | unmaps and frees every user page and nothing else; cannot panic |
| ProcessMemory.Kernel.FreeTables | src/kernel/proc/process.c:123-135 | frees every table of the process and nothing else |
| ProcessMemory.Kernel.FreeSpace | src/kernel/proc/process.c:96-139 | everything the process owned becomes free, nothing else |
| ProcessMemory.Kernel.FreeOne | src/kernel/mm/memory.c:111-117 | the double-free panic is unreachable from the process code |
| ProcessMemory.Kernel.CreateProcess | src/kernel/proc/process.c:237-334 | success exactly if a slot and the root entry exist, in the lowest slot, with the image loaded; frames leak exactly if the root entry is missing |
| ProcessMemory.Kernel.CopyPages | src/kernel/proc/process.c:441-459 | the copy loop: same bytes, same flags; its tests for absent entries never succeed |
| ProcessMemory.Kernel.Fork | src/kernel/proc/process.c:404-498 | success exactly if a slot is free; the child, in the lowest slot, has copies in frames nobody used |
| ProcessMemory.Kernel.Exec | src/kernel/proc/process.c:520-561 | keeps the root table, replaces the image, keeps exact ownership; fails exactly for an empty image, changing nothing |
| ProcessMemory.Kernel.Recycle | src/kernel/proc/process.c:142-166 | exactly the slot's frames become free |
| ProcessMemory.Kernel.Run | src/kernel/proc/process.c:237-561 | exact ownership after every run; the only panic is exhaustion; no leak if the root entry is always there |
| ProcessMemory.Install | src/kernel/proc/process.c:307-315 | a new process keeps exact ownership and every other address space |
| ProcessMemory.Uninstall | src/kernel/proc/process.c:137-138 | so does the end of one |
| ProcessMemory.UserEntry | src/kernel/proc/process.c:442-451 | fork finds every user page of the parent in its tables |
| ProcessMemory.UserFlags | src/kernel/proc/process.c:457-458 | dropping the valid bit and mapping again restores the parent's flags |
| ProcessMemory.SpaceView | src/kernel/proc/process.c:271-298 | the hardware sees exactly the user pages and the kernel map |
| ProcessMemory.OthersUntouched | src/kernel/proc/process.c:427-459 | no other process sees a translation or a byte change |
| ProcessMemory.ForkIsolation | src/kernel/proc/process.c:427-459 | every user page of the child translates with the parent's flags to a fresh frame with the parent's bytes; every other page as in the parent |
| ProcessMemory.ExecExact | src/kernel/proc/process.c:529-547 | after exec the user region holds exactly the zero-padded image, no old page, and all other translations are as before |
| ProcessMemory.ImageByteForByte | src/kernel/proc/process.c:287-298 | a loaded process reads its image byte for byte from 0x1000000 on, then zeros to the end of the first page that holds it all |
| Protection.UserModeReaches | src/kernel/proc/process.c:271-298 | user mode may fetch, load and store exactly on the pages of its own image |
| Protection.KernelModeReaches | src/kernel/proc/process.c:271-298 | which pages the kernel may fetch, load and store under a process's tables; its own pages and the devices are identity-mapped |
| Protection.ProcessIsConfined | src/kernel/proc/process.c:237-561 | both for every process in every state of creating, forking, replacing and recycling |
| Protection.ReachIsPrivate | src/kernel/proc/process.c:427-459 | no frame that user mode reaches holds a table of any process or is reached by another process |
| SystemRuns.StepFrees | src/kernel/proc/process.c:142-166 | no step but a clone or a fork brings a slot into use |
| SystemRuns.SpawnJoins | src/kernel/proc/process.c:380-402 | after the reaping a spawn takes the same slot in the process table and in memory |
| SystemRuns.FilesKeepJoined | src/kernel/fs/fs.c:700-717 | no operation on files by a process in use gives a free slot a descriptor |
| SystemRuns.System.ReleaseFreed | src/kernel/proc/process.c:142-166 | every slot the process table has freed loses its descriptors and its memory; every process in the table keeps its own |
| SystemRuns.System.ReapAndRelease | src/kernel/proc/process.c:169-181 | the reaping with which a spawn begins, in all three tables |
| SystemRuns.System.CloneCall | src/kernel/trap/syscall_process.c:206-222 | the spawn step, with the image loaded for the same slot, which has no descriptors; everybody else keeps memory and descriptors; panics only if memory is exhausted, leaks nothing |
| SystemRuns.System.ForkCall | src/kernel/proc/process.c:404-498 | the spawn step, with a copy of the caller's pages and of its descriptors; everybody else keeps memory and descriptors |
| SystemRuns.System.ExecCall | src/kernel/trap/syscall_process.c:247-258 | the exec step on table and memory; an unknown or empty image changes nothing; everybody else keeps memory and descriptors |
| SystemRuns.System.ExecImage | src/kernel/proc/process.c:520-561 | on success the caller has the zero-padded pages of the image and no others |
| SystemRuns.System.AdvanceCall | src/kernel/proc/process.c:563-816 | exit, waitpid, kill, send, receive, getchar and timer steps, with the slots they free released and everybody else's memory and descriptors kept |
| SystemRuns.System.Perform | src/kernel/trap/syscall_process.c:168-286 | any call is its step of the process protocol, or one operation on files, keeps the three tables joined, and changes no other process's memory; only an operation on files changes a file, and no other call changes another process's descriptors |
| SystemRuns.KeptSeesNoChange | src/kernel/proc/process.c:427-459 | a process whose space and frames were kept sees every page translate as before and every user page with the same bytes |
| SystemRuns.SpawnSpares | src/kernel/proc/process.c:380-402 | reaping, building a child and handing out its slot together spare all others |
| ProcessMemory.OthersSame | src/kernel/proc/process.c:96-139 | under exact ownership, changing one slot's space and no frame of others leaves every other slot its memory |
| SystemRuns.System.Run | src/kernel/proc/process.c:142-816 | every run of calls is a run of the process protocol and of the descriptor tables; the only panic is exhaustion; nothing leaks |
| SystemRuns.System.NothingLeaks | src/kernel/proc/process.c:142-166 | the frames in use are exactly those of the processes in the table, each with one owner; a slot is free exactly if it owns no frame, and then it has no descriptor |
| SystemRuns.Boot | src/kernel/kernel.c:196-264 | idle process and shell in the first two slots of all tables, in the boot state of the protocol |
| SystemRuns.PowerOn | src/kernel/kernel.c:154-264 | the same from an empty memory and a device, through `fs_init` |
| FsPath.SkipRun | src/kernel/fs/fs.c:119-121 | the first position that is not a slash |
| FsPath.NextComponent | src/kernel/fs/fs.c:116-137 | delivers the next component, the end, or -1 exactly for a component of 16 characters or more |
| FsPath.LeadingSlash | src/kernel/fs/fs.c:119-121 | repeated slashes do not matter |
| FsPath.NameThen | src/kernel/fs/fs.c:127-136 | a name ends at the next slash |
| FsPath.ComponentsOfConcat | src/kernel/fs/fs.c:116-137 | splitting a path at a slash splits its components |
| FsPath.ComponentsOfPrinted | src/kernel/fs/fs.c:116-137 | splitting a printed list of names gives the list back |
| FsTree.LookupIffPath | src/kernel/fs/fs.c:272-286 | lookup finds a node exactly under the names on its chain from the root |
| FsTree.ResolveIffPath | src/kernel/fs/fs.c:263-287 | a path resolves to a node exactly if it is absolute and its components are that chain |
| FsTree.PrintedPathResolves | src/kernel/fs/fs.c:263-287 | the printed path of every used node resolves to it |
| FsTree.PrefixClosed | src/kernel/fs/fs.c:289-333 | everything above an entry is a directory |
| FsTree.ViewAdded | src/kernel/fs/fs.c:398-403 | adding a node keeps the tree and adds one key, that was absent |
| FsTree.ViewRemoved | src/kernel/fs/fs.c:572 | zeroing a childless node keeps the tree and removes one key |
| FsTree.ViewRewritten | src/kernel/fs/fs.c:480-484 | changing a file's contents changes the value of one key |
| FsOps.CreateRefines | src/kernel/fs/fs.c:493-524 | create and mkdir succeed exactly if the parent is a directory, the name fits, nothing is there and a slot is free; one key is added |
| FsOps.OpenRefines | src/kernel/fs/fs.c:367-425 | open succeeds exactly for a file, or with O_CREAT where one can be created; the map changes at that key at most |
| FsOps.OpenChangesMapIff | src/kernel/fs/fs.c:393-420 | whether or not a descriptor is left, an open changes the map exactly if it creates a file or empties one that had contents |
| FsOps.UnlinkRefines | src/kernel/fs/fs.c:558-577 | unlink succeeds exactly for a file that is not open; one key is removed |
| FsOps.RmdirRefines | src/kernel/fs/fs.c:579-598 | rmdir succeeds exactly for an empty directory other than the root; one key is removed |
| FsOps.ListingIsComplete | src/kernel/fs/fs.c:538-553 | a listing has every entry of the directory once, in slot order |
| FsData.WriteRefines | src/kernel/fs/fs.c:470-484 | a write overwrites at its offset, fills holes with zeros, stops at the size limit, and leaves zeros past the end |
| FsData.WriteStores | src/kernel/fs/fs.c:470-484 | as many bytes as there is room for, at the offset, with zeros in a hole and every other byte kept |
| FsData.WriteTwice | src/kernel/fs/fs.c:474-484 | writing a and then b behind it is writing a + b, also where the limit cuts them |
| FsData.WriteThenRead | src/kernel/fs/fs.c:427-491 | what was written is read back |
| FsData.ReadTwice | src/kernel/fs/fs.c:440-451 | reading on from where a read ended is reading more at once |
| FsData.FileIsAByteString | src/kernel/fs/fs.c:427-491 | any interleaving of reads, writes and truncations through any descriptors behaves as on a byte string |
| FsImage.ParseStoredNode | src/kernel/fs/fs.c:150 | every field of a node survives its byte layout |
| FsImage.NodesOfStoredImage | src/kernel/fs/fs.c:216-225 | an image of nodes with a root directory loads to the same nodes |
| FsImage.ReadBackWritten | src/kernel/fs/fs.c:160-171 | the blocks of an image read back to the image, also in the last, partial block |
| FsImage.SyncSurvives | src/kernel/fs/fs.c:195-231 | after a whole sync a reboot finds the same node array |
| FsImage.CutBoot | src/kernel/fs/fs.c:160-171 | after a sync cut short at any block a reboot finds the new nodes up to one node, and the old ones after it |
| FsImage.TreesAreStorable | src/kernel/fs/fs.c:148-150 | every tree fits the image's field widths |
| NodefsModule.Nodefs.constructor | src/kernel/fs/fs.c:185-193 | a volatile instance starts as a formatted tree |
| NodefsModule.Nodefs.Load | src/kernel/fs/fs.c:195-231 | the nodes become what the device holds, or a fresh format that is synced back |
| NodefsModule.Nodefs.Sync | src/kernel/fs/fs.c:143-174 | success means a reboot finds these nodes; at every other end the device holds new blocks up to a point and old ones after it |
| NodefsModule.Nodefs.FindChild | src/kernel/fs/fs.c:233-246 | the lowest used slot with that parent and name |
| NodefsModule.Nodefs.FindFree | src/kernel/fs/fs.c:248-261 | the lowest free slot but the root's |
| NodefsModule.Nodefs.ResolvePath | src/kernel/fs/fs.c:263-287 | the loop over components is lookup along them |
| NodefsModule.Nodefs.ResolveParentAndLeaf | src/kernel/fs/fs.c:289-333 | the look-ahead walk is lookup of all components but the last, through directories only |
| NodefsModule.Nodefs.IsNodeOpen | src/kernel/fs/fs.c:335-353 | true exactly if some descriptor of some process has the node open |
| NodefsModule.Nodefs.IsDirEmpty | src/kernel/fs/fs.c:355-365 | true exactly if no used node hangs below |
| NodefsModule.Nodefs.MakeDir | src/kernel/fs/fs.c:493-524 | the model's create; success means synced |
| NodefsModule.Nodefs.OpenNode | src/kernel/fs/fs.c:367-425 | the model's open; success means every change is synced |
| NodefsModule.Nodefs.ReadNode | src/kernel/fs/fs.c:427-452 | exactly the bytes at the offset, which moves past them |
| NodefsModule.Nodefs.WriteFile | src/kernel/fs/fs.c:454-491 | one node changes, as the byte-string write says; success means synced |
| NodefsModule.Nodefs.UnlinkFile | src/kernel/fs/fs.c:558-577 | the model's unlink; success means synced |
| NodefsModule.Nodefs.RemoveDir | src/kernel/fs/fs.c:579-598 | the model's rmdir; success means synced |
| NodefsModule.Nodefs.ReadDir | src/kernel/fs/fs.c:526-556 | the index-th entry of the listing, or none |
| Mounts.SubpathComponents | src/kernel/fs/fs.c:681-689 | the mount's components followed by those of the subpath are those of the path |
| Mounts.MatchesIff | src/kernel/fs/fs.c:639-652 | a path reaches a mount exactly if its components start with the mount's and no slash is doubled in that part, for every mount and path |
| Mounts.DoubleSlashMissesMount | src/kernel/fs/fs.c:639-652 | a path with a doubled leading slash has the components of the same path without, and is not inside /tmp |
| Vfs.OpenKeeps | src/kernel/fs/fs.c:393-420 | an open leaves every used node the same file |
| Vfs.UnlinkKeeps | src/kernel/fs/fs.c:568-572 | an unlink leaves every open node the same file |
| Vfs.RmdirKeeps | src/kernel/fs/fs.c:586-593 | a rmdir leaves every file the same |
| Vfs.RootAlwaysThere | src/kernel/fs/fs.c:976-990 | the root entry of a tree is always found |
| Vfs.OpenCreatesAnyway | src/kernel/fs/fs.c:793-811 | a concrete open that changes the file system although no descriptor may be left for it |
| Vfs.Table.GetRootEntry | src/kernel/fs/fs.c:976-990 | the root entry is found exactly if something is mounted at the root |
| Vfs.Table.constructor | src/kernel/fs/fs.c:722-723 | no descriptors at first, over the mounts that `fs_init` makes |
| Vfs.Table.ResolveMount | src/kernel/fs/fs.c:654-698 | the longest matching mount and the path inside it |
| Vfs.Table.AllocFd | src/kernel/fs/fs.c:700-717 | the lowest free descriptor, or none if all are used |
| Vfs.Table.Close | src/kernel/fs/fs.c:813-827 | one descriptor becomes unused; fails exactly if it was |
| Vfs.Table.Dup2 | src/kernel/fs/fs.c:939-956 | one descriptor becomes a copy of another; fails exactly for bad numbers or an unused source |
| Vfs.Table.ForkCopyFds | src/kernel/fs/fs.c:779-791 | the child's descriptors are the parent's; nobody else's change |
| Vfs.Table.OnProcessRecycle | src/kernel/fs/fs.c:958-970 | no descriptor of the process stays in use; nobody else's change |
| Vfs.Table.Open | src/kernel/fs/fs.c:793-811 | descriptor and node of a success, the state after each kind of failure, all open files kept |
| Vfs.Table.Read | src/kernel/fs/fs.c:829-854 | exactly the bytes at the descriptor's own offset; every failing case |
| Vfs.Table.Write | src/kernel/fs/fs.c:856-881 | the byte-string write at the descriptor's own offset, every failing case, all open files kept |
| Vfs.Table.MakeDirectory | src/kernel/fs/fs.c:883-895 | the create of the mount the path belongs to; failure exactly if it fails there or no mount matches |
| Vfs.Table.Remove | src/kernel/fs/fs.c:911-923 | the unlink of that mount, all open files kept |
| Vfs.Table.RemoveDirectory | src/kernel/fs/fs.c:925-937 | the rmdir of that mount, all open files kept |
| Vfs.Table.StillValid | src/kernel/fs/fs.c:335-353 | a file system that keeps its open files keeps every descriptor good |
| VfsRuns.Run | src/kernel/fs/fs.c:779-970 | in every run of opens, closes, reads, writes, dup2s, forks, recyclings and changes of the tree, every descriptor stays good and every step is one of VfsRuns.StepOk |
| VfsRuns.DescriptorStays | src/kernel/fs/fs.c:779-970 | in every run, until it is closed or replaced a descriptor stays on the same file, only its own reads and writes move it, and the file's bytes are those of its writes and truncations alone, whatever is unlinked, removed or created meanwhile |
| VfsRuns.ReadsTheString | src/kernel/fs/fs.c:829-854 | its next read delivers what that byte string holds at its own offset |
| VfsRuns.TwoWrites | src/kernel/fs/fs.c:856-881 | two writes in a row through one descriptor leave its offset and the file as one write of both buffers |
| VfsRuns.WrittenIsRead | src/kernel/fs/fs.c:829-881 | what one process writes another reads through its own descriptor at that offset |
| VfsRuns.OpenFilesStep | src/kernel/fs/fs.c:793-811 | an open empties the one file its path leads to, with write and truncate flags, and leaves every other open file as it is |
| VfsRuns.WriteFiles | src/kernel/fs/fs.c:856-881 | a write changes the one file of its descriptor, as on a byte string |
| FsInit.WithDirectoryKeeps | src/kernel/fs/fs.c:752-771 | making a mount point disturbs no node that is there |
| FsInit.WithDirectoryMakes | src/kernel/fs/fs.c:752-771 | the mount point is added exactly if it is missing and a directory can be made there |
| FsInit.FormattedIsEmpty | src/kernel/fs/fs.c:176-183 | a formatted file system holds the root directory and nothing else |
| FsInit.BadMagicFormats | src/kernel/fs/fs.c:216-230 | a device without the magic boots to a fresh format, and any boot has a root directory |
| FsInit.MountAt | src/kernel/fs/fs.c:610-637 | the lowest free entry, whose index the file system remembers; fails exactly for a bad path or a full table |
| FsInit.Init | src/kernel/fs/fs.c:719-777 | root, /tmp and /proc in this order: what the device holds with both mount points, and two new file systems; no descriptors |
| History.DecodeEncode | src/user/apps/shell/utils.c:332-389 | loading an encoded history gives it back without carriage returns and without lines that were nothing else |
| History.RoundTrip | src/user/apps/shell/utils.c:332-389 | the round trip is the identity exactly if no entry has a carriage return |
| History.DecodeIsSound | src/user/apps/shell/utils.c:332-389 | a loaded history has no carriage return, no empty line and no line too long, whatever the file holds |
| History.HistoryIsSound | src/user/apps/shell/main.c:156-160 | nor has any history made of entered lines and loads |
| History.ReachableRoundTrip | src/user/apps/shell/utils.c:287-389 | so every history the shell can have comes back from its file unchanged |
| History.OneFit | src/user/apps/shell/utils.c:292-303 | the longest fitting suffix is unique |
| History.HistoryIsNewest | src/user/apps/shell/utils.c:229-248 | after any lines the history is the newest of those that were not empty, cut to 63 characters, in order |
| History.OneLineEach | src/user/apps/shell/utils.c:305-327 | the file has one line for each entry, whatever characters the entries have |
| HistoryRing.PushInOrder | src/user/apps/shell/utils.c:229-241 | where a push writes in the ring is appending to the list, dropping the oldest of a full one, for every head position |
| HistoryRing.Ring.PushLine | src/user/apps/shell/utils.c:229-248 | appends the line cut to the buffer; an empty line changes nothing |
| HistoryRing.Ring.Get | src/user/apps/shell/utils.c:261-276 | the entry at a position from the oldest, cut to the caller's buffer; fails exactly outside |
| HistoryRing.Ring.EncodedLineLen | src/user/apps/shell/utils.c:278-285 | the length the line will take in the file |
| HistoryRing.Ring.SuffixStart | src/user/apps/shell/utils.c:292-303 | where the longest suffix that fits starts |
| HistoryRing.Ring.WriteLine | src/user/apps/shell/utils.c:308-327 | the escaped line; the tests for lack of room never succeed |
| HistoryRing.Ring.Serialize | src/user/apps/shell/utils.c:287-330 | exactly the encoding of the longest suffix that fits |
| HistoryRing.Ring.Load | src/user/apps/shell/utils.c:332-389 | the decoding of what the reads deliver, wherever the chunks are cut |
| HistoryRing.SaveThenLoad | src/user/apps/shell/utils.c:287-389 | what was serialized loads as the longest fitting suffix, exactly if that has no carriage return |
| HistoryFile.ReadsDeliver | src/user/apps/shell/utils.c:346-350 | a loop of reads delivers the rest of the file |
| HistoryFile.SavedHolds | src/user/apps/shell/utils.c:391-404 | a truncating open and one write leave exactly the text in the file |
| HistoryFile.HistorySurvives | src/user/apps/shell/utils.c:391-405 | saved to and loaded from a file of the kernel's size limit, the longest fitting suffix comes back, exactly if it has no carriage return |
| HistoryFile.WriteHistory | src/user/apps/shell/utils.c:391-405 | the file then holds the encoding of the longest fitting suffix; fails only without a process, mount, node or descriptor, or over a device |
| HistoryFile.LoadHistory | src/user/apps/shell/utils.c:332-389 | the ring then has the decoding of the file's text; fails only without a descriptor, or over a device |
| HistoryFile.SaveAndLoad | src/user/apps/shell/utils.c:332-405 | through the descriptor table, what comes back is the longest suffix that fits, exactly if it has no carriage return |
| PathNormalizer.PopComponent | src/user/runtime/user_path.c:6-29 | the backward scan in the buffer pops one name off the stack |
| PathNormalizer.PushComponent | src/user/runtime/user_path.c:82-94 | appends one name to the stack, or reports overflow exactly if it does not fit |
| PathNormalizer.BuildAbsolute | src/user/runtime/user_path.c:37-52 | the two cuts of the bounded copies are one cut of the whole path |
| PathNormalizer.ReadToken | src/user/runtime/user_path.c:65-74 | the next component, cut to 15 characters |
| PathNormalizer.NormalizeInto | src/user/runtime/user_path.c:54-104 | the in-place loop renders the stack evaluation, and its overflow returns are unreachable |
| PathNormalizer.UserPathResolve | src/user/runtime/user_path.c:31-108 | the normalised absolute path cut to the caller's buffer; fails exactly for an empty buffer or without a working directory |
| PathNormalizer.NormalizedIsCanonical | src/user/runtime/user_path.c:54-104 | the result has single slashes, no dots and names that fit |
| PathNormalizer.NormalizedComponents | src/user/runtime/user_path.c:54-104 | the kernel splits the result into exactly the names left on the stack |
| PathNormalizer.NormalizedIsFixed | src/user/runtime/user_path.c:54-104 | normalising again changes nothing |
| PathNormalizer.NormalizedLength | src/user/runtime/user_path.c:82-93 | the result is never longer than the path |
| PathNormalizer.ResolveTwice | src/user/runtime/user_path.c:31-108 | resolving a result again, from any directory, is the identity |
| PathNormalizer.OneMoreName | src/user/runtime/user_path.c:76-95 | for every path: `.` changes nothing, `..` takes the last name away, a name is added, cut to 15 characters |
| PathNormalizer.AbsoluteIs | src/user/runtime/user_path.c:37-52 | the input, or working directory, slash and input; the first 63 characters |
| PathNormalizer.RelativeResolves | src/user/runtime/user_path.c:37-52 | a relative path resolves like the working directory joined with it |
| PathNormalizer.ResolveParent | src/user/runtime/user_path.c:31-108 | a path followed by `/..` resolves to the directory above |
| Calendar.Udiv64 | src/lib/commonlibs.c:202-218 | shift-subtract division is quotient and remainder, and says what a zero divisor gives |
| Calendar.YearStartClosedForm | src/lib/commonlibs.c:161-165 | the year loop's rule counts leap years as y/4 - y/100 + y/400 |
| Calendar.DayNumberInjective | src/lib/commonlibs.c:237-254 | no two dates have the same day number |
| Calendar.MonthLengths | src/lib/commonlibs.c:223 | months alternate between 31 and 30 days and start again in August; February has 29 days exactly in Gregorian leap years |
| Calendar.DayNumberClosedForm | src/lib/commonlibs.c:233-254 | the day number of every date in closed form, with years that begin in March |
| Calendar.WeekdayOfDate | src/lib/commonlibs.c:230-231 | the weekday of every date is that of Zeller's congruence |
| Calendar.DateOfDay | src/lib/commonlibs.c:237-254 | the year and month loops give the valid date with that day number; the month stays below 12 |
| DateText.DecimalDenotes | src/lib/commonlibs.c:182-194 | the digits denote the number |
| DateText.AppendU32 | src/lib/commonlibs.c:182-194 | appends the decimal digits, exactly if they fit with the NUL |
| DateText.TextLength | src/lib/commonlibs.c:256-269 | at most 34 characters for years that fit an int |
| DateText.NamesAreSpelled | src/lib/commonlibs.c:221-222 | the names of weekdays and months |
| DateText.ClockReadsBack | src/lib/commonlibs.c:226-228 | hour, minute and second are below 24, 60 and 60 and denote the second of the day |
| DateText.TextReadsBack | src/lib/commonlibs.c:256-269 | every field of the text reads back as the date and time it was made from |
| DateText.TextIsUnique | src/lib/commonlibs.c:256-269 | different times have different texts |
| DateText.UnixTimeToUtc | src/lib/commonlibs.c:220-272 | the text of the unique date of that second; fails exactly if the buffer is too small; 40 bytes suffice |

## Left out

- Trap entry, `switch_context`, the fork child's return frame, CSR, `satp` and TLB handling: `yield` is modelled as the choice of the next current process.
- `run_ticks` and `schedule_count`, which nothing but the process listing reads.
- The nested scheduling loop of `yield`: its wait for an interrupt is a state in which only timer steps are possible.
- Which application images exist: an unknown id is a parameter of `Clone`, and images are any bytes within the bound of `src/user/user.ld:26`; a process's names and exec arguments are not modelled.
- The liveness of a recycled current process's page table: the kernel does not provide it; ownership is stated about the bitmap.
- The access and dirty bits of table entries, `MXR` and physical memory protection: the access check is that of the U, R, W and X bits and of `SUM`.
- ProcessMemory.Kernel.CreateProcess: the reaping at its start, a process table operation, is in SystemRuns.System.CloneCall.
- ProcessMemory.Kernel.Fork: the reaping at its start is in SystemRuns.System.ForkCall.
- SystemRuns.System.AdvanceCall: a slot freed by a call loses its descriptors and memory as the call ends, where the kernel takes them slot by slot within the scan; nothing else reads them in between.
- SystemRuns.System.Perform: the kernel's own writes below `/proc` are file operations of the run, not parts of the calls that cause them.
- FsInit.Init: asks that the device hold no image or the image of a tree, since the kernel checks node 0 only; mounts do not change after it.
- Vfs.Table.constructor: takes the mounts as given; FsInit.Init makes them.
- NodefsModule.Nodefs.Load: says which nodes a boot ends up with; that they form a tree is claimed only for images a completed sync wrote, since the kernel checks node 0 only.
- NodefsModule.Nodefs.Sync: a block write that fails leaves that block as it was; torn blocks are not modelled.
- DateText.UnixTimeToUtc: second counts whose year exceeds an int are excluded, because there `year++` overflows a signed int and C gives the call no meaning.
- The virtio driver, SBI console, RTC and timer registers: the device is an array of blocks whose reads and writes may fail; characters and times are inputs.
- procfs contents, the kernel information and bitmap system calls, `getcwd`/`chdir`, the dispatch of system calls and the copying of arguments from user memory.
- The shell's line editor, completion, redirection and its applications.
