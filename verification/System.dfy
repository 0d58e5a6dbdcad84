/**
 The kernel as a whole: one run of system calls over the process table, physical
 memory and the descriptor tables, which process.c keeps in step slot by slot.
 */
module SystemRuns {
  import opened CTypes
  import Console
  import ProcessModel
  import ProcessInvariant
  import ProcessRuns
  import ProcessKernel
  import PageTables
  import PhysicalMemory
  import AddressSpaces
  import ProcessMemory
  import FsTree
  import FsImage
  import NodefsModule
  import FsInit
  import Vfs
  import VfsRuns

  /** A system call of the running process, a timer interrupt, or an operation on files. */
  datatype Call =
    | Exit
    | Fork
    /** `app` is the image that the application number names, if it names one. */
    | Clone(app: Option<seq<byte>>)
    | Exec(app: Option<seq<byte>>)
    | Waitpid(target: int)
    | Kill(target: int)
    | Send(dst: int, payload: word)
    | Recv
    | Getchar(available: seq<byte>)
    | Tick(available: seq<byte>)
    /** By a process in use, or by the kernel for it, as for its entry in `/proc`. */
    | Files(op: VfsRuns.Op)

  /** The image fits below the bound of the user linker script. */
  predicate Loadable(call: Call) {
    (call.Clone? || call.Exec?) && call.app.Some? ==> AddressSpaces.PageCount(call.app.value) <= AddressSpaces.USER_LIMIT
  }

  /** The file operations that a process can ask for. */
  predicate Asked(op: VfsRuns.Op, procs: ProcessModel.Procs) {
    match op
    case Fork(_, _) => false
    case Recycle(_) => false
    case OpenAt(pid, _, _) => pid < |procs| && procs[pid].state != ProcessModel.Unused
    case DupFd(pid, _, _) => pid < |procs| && procs[pid].state != ProcessModel.Unused
    case _ => true
  }

  /** There is an image, and it has pages. */
  predicate Loads(app: Option<seq<byte>>) {
    app.Some? && app.value != []
  }

  /** The step of the process protocol that a call is; `resched` says whether the timer finds a slice used up. */
  function OpOf(call: Call, resched: bool): ProcessModel.Op
    requires !call.Files?
  {
    match call
    case Exit => ProcessModel.Exit
    case Fork => ProcessModel.Fork
    case Clone(app) => ProcessModel.Clone(app.Some?)
    case Exec(app) => ProcessModel.Exec(Loads(app))
    case Waitpid(target) => ProcessModel.Waitpid(target)
    case Kill(target) => ProcessModel.Kill(target)
    case Send(dst, payload) => ProcessModel.Send(dst, payload)
    case Recv => ProcessModel.Recv
    case Getchar(available) => ProcessModel.Getchar(available)
    case Tick(available) => ProcessModel.Tick(available, resched)
  }

  lemma CallIsStep(call: Call)
    requires !call.Files?
    ensures OpOf(call, false).Tick? <==> call.Tick?
  {
  }

  /** The steps are those of the calls, in order; a call on files makes none. */
  ghost predicate Follows(calls: seq<Call>, steps: seq<ProcessModel.Op>) {
    if calls == [] then steps == []
    else
      var rest, call := calls[..|calls| - 1], calls[|calls| - 1];
      if call.Files? then Follows(rest, steps)
      else
        && steps != [] && Follows(rest, steps[..|steps| - 1])
        && exists resched :: OpOf(call, resched) == steps[|steps| - 1]
  }

  lemma FollowsNothing()
    ensures Follows([], [])
  {
  }

  lemma FollowsStep(calls: seq<Call>, k: nat, before: seq<ProcessModel.Op>, n: nat, after: seq<ProcessModel.Op>, resched: bool)
    requires k < |calls| && n <= |before| && Follows(calls[..k], before[n..])
    requires if calls[k].Files? then after == before else after == before + [OpOf(calls[k], resched)]
    ensures n <= |after| && after[..n] == before[..n] && Follows(calls[..k + 1], after[n..])
  {
    assert calls[..k + 1][..k] == calls[..k];
    if !calls[k].Files? {
      assert after[n..][..|before| - n] == before[n..];
      assert OpOf(calls[k], resched) == after[n..][|before| - n];
    }
  }

  lemma RootOwned(a: AddressSpaces.AddressSpace)
    ensures a.root in AddressSpaces.Owned(a)
  {
  }

  // ----- what joins the three tables -----

  predicate NoFds(row: seq<NodefsModule.Fd>) {
    forall fd :: 0 <= fd < |row| ==> !row[fd].used
  }

  /** A slot is in use exactly if it has memory, and has descriptors in use only then. */
  predicate SlotJoined(p: ProcessModel.Proc, slot: ProcessMemory.Slot, row: seq<NodefsModule.Fd>) {
    (p.state == ProcessModel.Unused <==> !slot.inUse) && (p.state == ProcessModel.Unused ==> NoFds(row))
  }

  predicate Joined(procs: ProcessModel.Procs, slots: seq<ProcessMemory.Slot>, fds: seq<seq<NodefsModule.Fd>>) {
    |procs| == |slots| == |fds| && forall i :: 0 <= i < |procs| ==> SlotJoined(procs[i], slots[i], fds[i])
  }

  /** A slot just freed in the process table may still have its memory and descriptors. */
  predicate SlotBehind(p: ProcessModel.Proc, slot: ProcessMemory.Slot, row: seq<NodefsModule.Fd>) {
    !slot.inUse ==> p.state == ProcessModel.Unused && NoFds(row)
  }

  predicate Behind(procs: ProcessModel.Procs, slots: seq<ProcessMemory.Slot>, fds: seq<seq<NodefsModule.Fd>>) {
    |procs| == |slots| == |fds| && forall i :: 0 <= i < |procs| ==> SlotBehind(procs[i], slots[i], fds[i])
  }

  /** Slots were freed, and none handed out. */
  predicate OnlyFrees(before: ProcessModel.Procs, after: ProcessModel.Procs) {
    |after| == |before|
    && forall i :: 0 <= i < |before| && before[i].state == ProcessModel.Unused ==> after[i].state == ProcessModel.Unused
  }

  lemma FreedIsBehind(before: ProcessModel.Procs, after: ProcessModel.Procs, slots: seq<ProcessMemory.Slot>, fds: seq<seq<NodefsModule.Fd>>)
    requires Joined(before, slots, fds) && OnlyFrees(before, after)
    ensures Behind(after, slots, fds)
  {
  }

  /** Only clone and fork hand out slots. */
  lemma StepFrees(s: ProcessModel.Sys, op: ProcessModel.Op)
    requires ProcessInvariant.Inv(s) && !op.Clone? && !op.Fork?
    ensures OnlyFrees(s.procs, ProcessModel.Step(s, op).0.procs)
  {
    hide ProcessInvariant.TableOk, ProcessModel.Step;
    if s.halted {
      ProcessRuns.HaltedStays(s, op);
    } else {
      forall i: nat | i < |s.procs| && s.procs[i].state == ProcessModel.Unused
        ensures ProcessModel.Step(s, op).0.procs[i].state == ProcessModel.Unused
      {
        ProcessRuns.StepEffect(s, op, i);
      }
    }
  }

  /** A file operation by a process in use gives no other process a descriptor. */
  lemma FilesKeepJoined(op: VfsRuns.Op, procs: ProcessModel.Procs, slots: seq<ProcessMemory.Slot>,
                        s: VfsRuns.Snapshot, t: VfsRuns.Snapshot)
    requires Joined(procs, slots, s.table) && |t.table| == |s.table| && Asked(op, procs) && VfsRuns.UseStep(op, s, t)
    ensures Joined(procs, slots, t.table)
  {
    forall i: nat | i < |procs| && procs[i].state == ProcessModel.Unused ensures NoFds(t.table[i]) {
      forall fd: nat | fd < |t.table[i]| ensures !t.table[i][fd].used {
        assert VfsRuns.HasFd(t, i, fd);
        assert SlotJoined(procs[i], slots[i], s.table[i]);
      }
    }
  }

  /** Recycling a slot leaves it without descriptors, and gives nobody any. */
  lemma RecycleRows(pid: nat, s: VfsRuns.Snapshot, t: VfsRuns.Snapshot)
    requires pid < |s.table| == |t.table| && VfsRuns.UseStep(VfsRuns.Recycle(pid), s, t)
    ensures NoFds(t.table[pid])
    ensures forall i :: 0 <= i < |s.table| && NoFds(s.table[i]) ==> NoFds(t.table[i])
  {
    forall i: nat, fd: nat | i < |t.table| && fd < |t.table[i]| && (i == pid || NoFds(s.table[i]))
      ensures !t.table[i][fd].used
    {
      assert VfsRuns.HasFd(t, i, fd) && !VfsRuns.Opens(VfsRuns.Recycle(pid), i);
    }
  }

  // ----- what a process has -----

  /** Memory, the address spaces of all slots, and all descriptors. */
  datatype Holdings = Holdings(mem: PageTables.Mem, spaces: seq<Option<AddressSpaces.AddressSpace>>, fds: seq<seq<NodefsModule.Fd>>)

  /** Slot `j` has kept its address space, what is in it, and its descriptors. */
  ghost predicate Keeps(s: Holdings, t: Holdings, j: nat) {
    ProcessMemory.SameSpace(s.mem, s.spaces, t.mem, t.spaces, j) && j < |s.fds| == |t.fds| && t.fds[j] == s.fds[j]
  }

  lemma KeepsTwice(s: Holdings, t: Holdings, u: Holdings, j: nat)
    requires Keeps(s, t, j) && Keeps(t, u, j)
    ensures Keeps(s, u, j)
  {
    hide ProcessMemory.SameSpace;
    ProcessMemory.SameSpaceTwice(s.mem, s.spaces, t.mem, t.spaces, u.mem, u.spaces, j);
  }

  lemma OnlyMemory(s: Holdings, t: Holdings, r: Option<nat>)
    requires t.fds == s.fds && |s.spaces| == |s.fds|
    requires forall j: nat :: j < |s.fds| && r != Some(j) ==> ProcessMemory.SameSpace(s.mem, s.spaces, t.mem, t.spaces, j)
    ensures forall j: nat :: j < |s.fds| && r != Some(j) ==> Keeps(s, t, j)
  {
  }

  lemma RowSpares(s: Holdings, t: Holdings, u: Holdings, child: nat)
    requires u.mem == t.mem && u.spaces == t.spaces && |u.fds| == |t.fds| == |s.fds|
    requires forall j: nat :: j < |t.fds| && j != child ==> u.fds[j] == t.fds[j]
    requires forall j: nat :: j < |t.fds| && j != child ==> Keeps(s, t, j)
    ensures forall j: nat :: j < |s.fds| && j != child ==> Keeps(s, u, j)
  {
    hide ProcessMemory.SameSpace;
    forall j: nat | j < |s.fds| && j != child ensures Keeps(s, u, j) {
      assert Keeps(s, t, j);
    }
  }

  lemma HasKept(s: Holdings)
    ensures forall j: nat :: j < |s.spaces| == |s.fds| ==> Keeps(s, s, j)
  {
    hide AddressSpaces.Owned;
  }

  /** A process that kept what it has sees no change: every page translates as before, every user page has the same bytes. */
  lemma KeptSeesNoChange(s: Holdings, t: Holdings, end: nat, j: nat, vpn: nat)
    requires j < |s.spaces| && s.spaces[j].Some? && AddressSpaces.SpacesOk(s.mem, end, s.spaces)
    requires Keeps(s, t, j) && vpn < PageTables.VPN_LIMIT
    ensures t.spaces[j] == s.spaces[j]
    ensures var a := s.spaces[j].value;
      && PageTables.Translate(t.mem, a.root, vpn) == PageTables.Translate(s.mem, a.root, vpn)
      && (AddressSpaces.USER_PAGE <= vpn < AddressSpaces.USER_PAGE + |a.user| ==>
            && PageTables.Translate(s.mem, a.root, vpn).Some?
            && var f := PageTables.Translate(s.mem, a.root, vpn).value.ppn;
            f in s.mem && f in t.mem && t.mem[f] == s.mem[f])
  {
    hide PageTables.Translate, AddressSpaces.SpaceOk, AddressSpaces.Owned;
    var a := s.spaces[j].value;
    ProcessMemory.OthersUntouched(s.mem, t.mem, end, a, AddressSpaces.Owned(a), vpn);
  }

  /** The slot that a call hands out or gives a new image; `cur` made it. */
  function Remade(call: Call, out: ProcessModel.Outcome, cur: nat): set<nat> {
    if call.Fork? || call.Clone? then Made(out) else if call.Exec? then {cur} else {}
  }

  function Made(out: ProcessModel.Outcome): set<nat> {
    if out.Returned? && out.value >= 0 then {out.value} else {}
  }

  ghost predicate AllKeep(procs: ProcessModel.Procs, except: set<nat>, s: Holdings, t: Holdings) {
    forall j: nat :: j < |procs| && procs[j].state != ProcessModel.Unused && j !in except ==> Keeps(s, t, j)
  }

  /** The reaping spares who stays, building a child spares all others, and handing out its slot changes nobody's state. */
  lemma SpawnSpares(reaped: ProcessModel.Procs, procs: ProcessModel.Procs, r: Option<nat>, out: ProcessModel.Outcome,
                    s: Holdings, t: Holdings, u: Holdings)
    requires |procs| == |reaped| && forall j: nat :: j < |reaped| && r != Some(j) ==> procs[j] == reaped[j]
    requires out == ProcessModel.Returned(if r.Some? then r.value else -1)
    requires AllKeep(reaped, {}, s, t) && forall j: nat :: j < |reaped| && r != Some(j) ==> Keeps(t, u, j)
    ensures AllKeep(procs, Made(out), s, u)
  {
    hide Keeps;
    forall j: nat | j < |procs| && procs[j].state != ProcessModel.Unused && j !in Made(out) ensures Keeps(s, u, j) {
      KeepsTwice(s, t, u, j);
    }
  }

  // ----- spawning -----

  lemma ReapTwice(s: ProcessModel.Sys)
    requires ProcessModel.WellFormed(s) && ProcessModel.Running(s)
    ensures ProcessModel.SpawnStep(s.(procs := ProcessModel.Reap(s.procs))) == ProcessModel.SpawnStep(s)
    ensures OnlyFrees(s.procs, ProcessModel.Reap(s.procs))
    ensures ProcessModel.Reap(ProcessModel.Reap(s.procs)) == ProcessModel.Reap(s.procs)
  {
    assert ProcessModel.Reap(ProcessModel.Reap(s.procs)) == ProcessModel.Reap(s.procs);
  }

  lemma SpawnIs(s: ProcessModel.Sys, op: ProcessModel.Op)
    requires ProcessInvariant.Inv(s) && ProcessModel.Enabled(s, op) && (op == ProcessModel.Clone(true) || op == ProcessModel.Fork)
    ensures ProcessModel.Step(s, op) == ProcessModel.SpawnStep(s.(procs := ProcessModel.Reap(s.procs)))
    ensures ProcessInvariant.Inv(ProcessModel.Step(s, op).0)
  {
    hide ProcessInvariant.TableOk, ProcessModel.SpawnStep;
    ReapTwice(s);
    ProcessInvariant.StepKeeps(s, op);
  }

  /** Memory was given to the lowest slot without any, if there was one. */
  predicate SlotTaken(before: seq<ProcessMemory.Slot>, after: seq<ProcessMemory.Slot>, r: Option<nat>) {
    && |after| == |before|
    && (r.None? ==> forall i :: 0 <= i < |before| ==> before[i].inUse && after[i].inUse)
    && (r.Some? ==>
          && r.value < |before| && !before[r.value].inUse && after[r.value].inUse
          && (forall i :: 0 <= i < r.value ==> before[i].inUse)
          && forall i :: 0 <= i < |before| && i != r.value ==> after[i].inUse == before[i].inUse)
  }

  /** Once the reaped slots are released, a spawn takes the same slot in both tables. */
  lemma SpawnJoins(s: ProcessModel.Sys, slots: seq<ProcessMemory.Slot>, fds: seq<seq<NodefsModule.Fd>>,
                   after: seq<ProcessMemory.Slot>, r: Option<nat>)
    requires ProcessModel.WellFormed(s) && ProcessModel.Reap(s.procs) == s.procs
    requires Joined(s.procs, slots, fds) && SlotTaken(slots, after, r)
    ensures ProcessModel.FreeSlot(s.procs) == r
    ensures Joined(ProcessModel.SpawnStep(s).0.procs, after, fds)
    ensures ProcessModel.SpawnStep(s).1 == ProcessModel.Returned(if r.Some? then r.value else -1)
    ensures r.Some? ==> r.value < |fds| && ProcessModel.SpawnStep(s).0.procs[r.value].state == ProcessModel.Runnable
    ensures forall j: nat :: j < |s.procs| && r != Some(j) ==> ProcessModel.SpawnStep(s).0.procs[j] == s.procs[j]
  {
    assert forall i :: 0 <= i < |slots| ==> SlotJoined(s.procs[i], slots[i], fds[i]);
  }

  lemma CallerHasMemory(s: ProcessModel.Sys, slots: seq<ProcessMemory.Slot>, fds: seq<seq<NodefsModule.Fd>>)
    requires ProcessModel.WellFormed(s) && ProcessModel.Running(s) && Joined(s.procs, slots, fds)
    ensures s.cur < |slots| && slots[s.cur].inUse && s.cur < |fds|
  {
    assert SlotJoined(s.procs[s.cur], slots[s.cur], fds[s.cur]);
  }

  /** Only the descriptors of a slot in use may have changed. */
  lemma ForkJoins(procs: ProcessModel.Procs, slots: seq<ProcessMemory.Slot>, parent: nat, child: nat,
                  s: VfsRuns.Snapshot, t: VfsRuns.Snapshot)
    requires Joined(procs, slots, s.table) && |t.table| == |s.table| && VfsRuns.UseStep(VfsRuns.Fork(parent, child), s, t)
    requires child < |procs| && procs[child].state != ProcessModel.Unused
    ensures Joined(procs, slots, t.table)
  {
    forall i: nat | i < |procs| && procs[i].state == ProcessModel.Unused ensures NoFds(t.table[i]) {
      forall fd: nat | fd < |t.table[i]| ensures !t.table[i][fd].used {
        assert VfsRuns.HasFd(t, i, fd);
        assert SlotJoined(procs[i], slots[i], s.table[i]);
      }
    }
  }

  lemma RunSnoc(s: ProcessModel.Sys, steps: seq<ProcessModel.Op>, op: ProcessModel.Op)
    requires ProcessModel.WellFormed(s)
    ensures ProcessRuns.Run(s, steps + [op]) == ProcessModel.Step(ProcessRuns.Run(s, steps), op).0
  {
    hide ProcessModel.Step;
    assert (steps + [op])[..|steps|] == steps;
  }

  lemma NotEnabled(s: ProcessModel.Sys, op: ProcessModel.Op)
    requires ProcessModel.WellFormed(s) && !ProcessModel.Enabled(s, op)
    ensures ProcessModel.Step(s, op) == (s, ProcessModel.Suspended)
  {
  }

  lemma CloneFails(s: ProcessModel.Sys)
    requires ProcessModel.WellFormed(s) && ProcessModel.Enabled(s, ProcessModel.Clone(false))
    ensures ProcessModel.Step(s, ProcessModel.Clone(false)) == (s, ProcessModel.Returned(-1))
  {
  }

  lemma ExecIs(s: ProcessModel.Sys, op: ProcessModel.Op)
    requires ProcessInvariant.Inv(s) && op.Exec? && ProcessModel.Enabled(s, op)
    ensures ProcessModel.Step(s, op) == if op.loaded then ProcessModel.ExecStep(s) else (s, ProcessModel.Returned(-1))
    ensures ProcessInvariant.Inv(ProcessModel.Step(s, op).0)
  {
    hide ProcessInvariant.TableOk, ProcessModel.ExecStep;
    ProcessInvariant.StepKeeps(s, op);
  }

  lemma ExecJoins(s: ProcessModel.Sys, slots: seq<ProcessMemory.Slot>, after: seq<ProcessMemory.Slot>, fds: seq<seq<NodefsModule.Fd>>)
    requires ProcessModel.WellFormed(s) && ProcessModel.Running(s) && Joined(s.procs, slots, fds)
    requires |after| == |slots| && forall i :: 0 <= i < |slots| ==> after[i].inUse == slots[i].inUse
    ensures Joined(s.procs, after, fds) && Joined(ProcessModel.ExecStep(s).0.procs, after, fds)
  {
    assert forall i :: 0 <= i < |slots| ==> SlotJoined(s.procs[i], slots[i], fds[i]);
  }

  // ----- calls that only change the process table -----

  predicate OnProcessesOnly(call: Call) {
    !call.Fork? && !call.Clone? && !call.Exec? && !call.Files?
  }

  method Advance(k: ProcessKernel.Kernel, call: Call) returns (out: ProcessModel.Outcome, ghost resched: bool)
    requires k.Valid() && ProcessInvariant.Inv(k.View()) && OnProcessesOnly(call)
    requires ProcessModel.Enabled(k.View(), OpOf(call, false))
    modifies k, k.ring, k.ring.buf
    ensures k.Valid() && (k.View(), out) == ProcessModel.Step(old(k.View()), OpOf(call, resched))
  {
    hide ProcessInvariant.TableOk, ProcessModel.Poll, ProcessKernel.Kernel.Valid, Console.Ring.Valid;
    hide ProcessModel.ExitStep, ProcessModel.WaitpidStep, ProcessModel.KillStep, ProcessModel.SendStep, ProcessModel.RecvStep;
    hide ProcessModel.GetcharStep, ProcessModel.TickStep;
    resched := false;
    match call {
      case Exit => out := k.SyscallExit();
      case Waitpid(target) => out := k.SyscallWaitpid(target);
      case Kill(target) => out := k.SyscallKill(target);
      case Send(dst, payload) => out := k.SyscallSend(dst, payload);
      case Recv => out := k.SyscallRecv();
      case Getchar(available) => out := k.SyscallGetchar(available);
      case Tick(available) =>
        ghost var polled := ProcessModel.Poll(k.View(), available);
        resched := ProcessModel.Running(polled) && k.slices[k.cur] == 1;
        k.TimerInterrupt(available);
        out := ProcessModel.Suspended;
        TickSuspends(old(k.View()), available, resched);
    }
  }

  lemma TickSuspends(s: ProcessModel.Sys, available: seq<byte>, resched: bool)
    requires ProcessModel.WellFormed(s)
    ensures ProcessModel.TickStep(s, available, resched).1 == ProcessModel.Suspended
  {
  }

  // ----- the system -----

  class System {
    const kernel: ProcessKernel.Kernel
    const memory: ProcessMemory.Kernel
    const table: Vfs.Table
    /** The state of the process protocol after boot, and its steps since. */
    ghost const start: ProcessModel.Sys
    ghost var steps: seq<ProcessModel.Op>
    /** The file operations since boot, with those that the kernel makes itself, and the states between them. */
    ghost var requests: seq<VfsRuns.Op>
    ghost var outs: seq<seq<byte>>
    ghost var trace: seq<VfsRuns.Snapshot>

    /** The parts share no state. */
    ghost predicate Apart() {
      && (kernel.ring.buf as object) != (memory.ram.bitmap as object)
      && forall c :: c in table.Ctxs() ==>
           (c as object) !in {this, kernel, kernel.ring, kernel.ring.buf, memory, memory.ram, memory.ram.bitmap, table}
    }

    ghost predicate PartsOk()
      reads kernel, kernel.ring, memory, memory.ram, memory.ram.bitmap, table, table.Ctxs()
      ensures PartsOk() ==> kernel.Shaped()
    {
      kernel.Valid() && memory.Valid() && table.Valid() && table.Uniform() && Apart()
    }

    /** What has happened is a run of the descriptor tables. */
    ghost predicate Logged()
      reads this`requests, this`outs, this`trace, table`fds, table.Ctxs()
    {
      VfsRuns.IsTrace(requests, outs, trace, table.Paths()) && trace[|requests|] == VfsRuns.Now(table)
    }

    /** And it is a run of the process protocol. */
    ghost predicate Replayed()
      requires kernel.Shaped()
      reads this, kernel, kernel.ring, kernel.ring.buf
    {
      ProcessModel.WellFormed(start) && kernel.View() == ProcessRuns.Run(start, steps) && ProcessInvariant.Inv(kernel.View())
    }

    ghost predicate HasRoot() {
      exists i :: 0 <= i < |table.mounts| && table.mounts[i].Some? && table.mounts[i].value.path == [SLASH]
    }

    ghost predicate Valid()
      reads this, kernel, kernel.ring, kernel.ring.buf, memory, memory.ram, memory.ram.bitmap, table, table.Ctxs()
      ensures Valid() ==> kernel.Shaped()
    {
      && PartsOk() && Logged() && Replayed() && HasRoot()
      && Joined(kernel.procs, memory.slots, table.fds)
    }

    constructor (kernel: ProcessKernel.Kernel, memory: ProcessMemory.Kernel, table: Vfs.Table)
      requires kernel.Valid() && memory.Valid() && table.Valid() && table.Uniform() && ProcessInvariant.Inv(kernel.View())
      requires (kernel.ring.buf as object) != (memory.ram.bitmap as object)
      requires exists i :: 0 <= i < |table.mounts| && table.mounts[i].Some? && table.mounts[i].value.path == [SLASH]
      requires Joined(kernel.procs, memory.slots, table.fds)
      ensures Valid() && this.kernel == kernel && this.memory == memory && this.table == table && start == kernel.View()
    {
      this.kernel, this.memory, this.table := kernel, memory, table;
      start, steps := kernel.View(), [];
      requests, outs, trace := [], [], [VfsRuns.Now(table)];
    }

    ghost function Held(): Holdings
      reads memory, memory.ram, table`fds
    {
      Holdings(memory.ram.mem, memory.spaces, table.fds)
    }

    /** Every process but those in `except` that is still in the table has what it had. */
    twostate predicate OthersKeep(except: set<nat>)
      reads kernel, memory, memory.ram, table
    {
      AllKeep(kernel.procs, except, old(Held()), Held())
    }

    // ----- pieces -----

    /** One operation on the descriptor tables. */
    method FileOp(op: VfsRuns.Op) returns (out: seq<byte>)
      requires table.Valid() && table.Uniform() && Logged()
      modifies table`fds, table.Ctxs(), table.Disks(), this`requests, this`outs, this`trace
      ensures table.Valid() && table.Uniform() && Logged()
      ensures VfsRuns.StepOk(op, old(VfsRuns.Now(table)), VfsRuns.Now(table), table.Paths(), out)
      ensures requests == old(requests) + [op] && outs == old(outs) + [out] && |table.fds| == |old(table.fds)|
    {
      hide VfsRuns.UseStep, VfsRuns.FileStep, VfsRuns.ReadStep;
      out := VfsRuns.Perform(table, op);
      requests := requests + [op];
      outs := outs + [out];
      trace := trace + [VfsRuns.Now(table)];
    }

    /** One operation on the descriptor tables alone. */
    method TableOp(op: VfsRuns.Op)
      requires table.Valid() && table.Uniform() && Logged() && Apart() && VfsRuns.OnTableOnly(op)
      modifies table`fds, this`requests, this`outs, this`trace
      ensures table.Valid() && table.Uniform() && Logged()
      ensures VfsRuns.StepOk(op, old(VfsRuns.Now(table)), VfsRuns.Now(table), table.Paths(), [])
      ensures requests == old(requests) + [op] && table.fds == VfsRuns.TableAfter(op, old(table.fds))
    {
      hide VfsRuns.UseStep, VfsRuns.FileStep, VfsRuns.ReadStep, Vfs.Table.Valid;
      VfsRuns.PerformOnTable(table, op);
      requests := requests + [op];
      outs := outs + [[]];
      trace := trace + [VfsRuns.Now(table)];
    }

    /** The rest of `recycle_process_slot` for every slot that the process table has just freed. */
    method ReleaseFreed()
      requires PartsOk() && Logged() && Behind(kernel.procs, memory.slots, table.fds)
      modifies memory, memory.ram`mem, memory.ram`used, memory.ram.bitmap
      modifies table`fds, this`requests, this`outs, this`trace
      ensures PartsOk() && Logged() && Joined(kernel.procs, memory.slots, table.fds) && memory.leaked == old(memory.leaked)
      ensures OthersKeep({})
    {
      hide Keeps;
      hide ProcessKernel.Kernel.Valid, ProcessKernel.Kernel.Shaped, ProcessKernel.Kernel.View, ProcessMemory.Kernel.Valid;
      hide Vfs.Table.Valid, Vfs.Table.Uniform;
      hide VfsRuns.IsTrace, ProcessRuns.Run, ProcessModel.WellFormed;
      ghost var start := Held();
      memory.InUseHasSpace();
      HasKept(start);
      for i := 0 to |kernel.procs|
        invariant forall j: nat :: j < |kernel.procs| && kernel.procs[j].state != ProcessModel.Unused ==> Keeps(start, Held(), j)
        invariant PartsOk() && Logged() && Behind(kernel.procs, memory.slots, table.fds) && memory.leaked == old(memory.leaked)
        invariant forall j :: 0 <= j < i ==> SlotJoined(kernel.procs[j], memory.slots[j], table.fds[j])
      {
        if kernel.procs[i].state == ProcessModel.Unused && memory.slots[i].inUse {
          ghost var before := Held();
          ReleaseSlot(i);
          forall j: nat | j < |kernel.procs| && kernel.procs[j].state != ProcessModel.Unused ensures Keeps(start, Held(), j) {
            KeepsTwice(start, before, Held(), j);
          }
        }
      }
    }

    /** `reap_exited_processes` as a spawn begins. */
    method ReapAndRelease()
      requires PartsOk() && Logged() && Joined(kernel.procs, memory.slots, table.fds) && ProcessModel.Running(kernel.View())
      modifies kernel`procs, kernel`slices, memory, memory.ram`mem, memory.ram`used, memory.ram.bitmap
      modifies table`fds, this`requests, this`outs, this`trace
      ensures PartsOk() && Logged() && Joined(kernel.procs, memory.slots, table.fds) && memory.leaked == old(memory.leaked)
      ensures kernel.View() == old(kernel.View()).(procs := ProcessModel.Reap(old(kernel.procs)))
      ensures ProcessModel.Reap(kernel.procs) == kernel.procs && OthersKeep({})
      ensures |memory.spaces| == |memory.slots| == |table.fds| == |kernel.procs| == |old(kernel.procs)|
    {
      hide Keeps;
      hide ProcessKernel.Kernel.Valid, ProcessMemory.Kernel.Valid, Vfs.Table.Valid, Vfs.Table.Uniform, System.Logged;
      ReapTwice(kernel.View());
      kernel.ReapExitedProcesses();
      FreedIsBehind(old(kernel.procs), kernel.procs, memory.slots, table.fds);
      ReleaseFreed();
      memory.InUseHasSpace();
    }

    /** The rest of `recycle_process_slot`: its descriptors, then its memory. */
    method ReleaseSlot(i: nat)
      requires PartsOk() && Logged() && i < |memory.slots| == |table.fds|
      modifies memory, memory.ram`mem, memory.ram`used, memory.ram.bitmap
      modifies table`fds, this`requests, this`outs, this`trace
      ensures PartsOk() && Logged() && memory.leaked == old(memory.leaked)
      ensures |memory.slots| == |old(memory.slots)| && |table.fds| == |old(table.fds)|
      ensures !memory.slots[i].inUse && NoFds(table.fds[i])
      ensures forall j :: 0 <= j < |memory.slots| && j != i ==> memory.slots[j].inUse == old(memory.slots)[j].inUse
      ensures forall j :: 0 <= j < |table.fds| && NoFds(old(table.fds)[j]) ==> NoFds(table.fds[j])
      ensures forall j: nat :: j < |memory.slots| && j != i ==> Keeps(old(Held()), Held(), j)
    {
      hide ProcessMemory.SameSpace;
      hide ProcessKernel.Kernel.Valid, ProcessKernel.Kernel.Shaped, ProcessMemory.Kernel.Valid, Vfs.Table.Valid;
      hide Vfs.Table.Uniform;
      hide VfsRuns.IsTrace, ProcessRuns.Run, ProcessModel.WellFormed;
      hide VfsRuns.OffsetStep, VfsRuns.UseStep, VfsRuns.FileStep, VfsRuns.ReadStep;
      memory.InUseHasSpace();
      ghost var before := VfsRuns.Now(table);
      TableOp(VfsRuns.Recycle(i));
      RecycleRows(i, before, VfsRuns.Now(table));
      memory.Recycle(i);
      memory.InUseHasSpace();
      memory.Spared(i);
    }

    /** Nothing has happened yet. */
    twostate lemma EverybodyKeeps(except: set<nat>)
      requires Valid() && Held() == old(Held())
      ensures OthersKeep(except)
      ensures |memory.spaces| == |memory.slots| == |table.fds| == |kernel.procs|
    {
      hide Keeps, ProcessKernel.Kernel.Valid, ProcessMemory.Kernel.Valid, Vfs.Table.Valid, Vfs.Table.Uniform, System.Logged;
      hide System.Replayed;
      memory.InUseHasSpace();
      HasKept(Held());
    }

    // ----- one call -----

    /** Takes note of a step of the process protocol that was made from `s`. */
    ghost method Note(s: ProcessModel.Sys, op: ProcessModel.Op)
      requires PartsOk() && Logged() && HasRoot() && Joined(kernel.procs, memory.slots, table.fds)
      requires ProcessModel.WellFormed(start) && s == ProcessRuns.Run(start, steps) && ProcessInvariant.Inv(s)
      requires kernel.View() == ProcessModel.Step(s, op).0
      modifies this`steps
      ensures Valid() && steps == old(steps) + [op]
    {
      hide ProcessKernel.Kernel.Valid, ProcessMemory.Kernel.Valid, Vfs.Table.Valid, Vfs.Table.Uniform, System.Logged;
      hide ProcessRuns.Run, ProcessModel.Step, ProcessInvariant.Inv, Joined;
      ProcessInvariant.StepKeeps(s, op);
      RunSnoc(start, steps, op);
      steps := steps + [op];
    }

    /** The call made step `op` of the process protocol, with result `out`. */
    twostate predicate Took(op: ProcessModel.Op, out: ProcessModel.Outcome)
      reads this, kernel, kernel.ring, kernel.ring.buf
    {
      && old(kernel.Shaped()) && kernel.Shaped()
      && (kernel.View(), out) == ProcessModel.Step(old(kernel.View()), op) && steps == old(steps) + [op]
    }

    method AdvanceCall(call: Call) returns (out: ProcessModel.Outcome, ghost resched: bool)
      requires Valid() && OnProcessesOnly(call) && ProcessModel.Enabled(kernel.View(), OpOf(call, false))
      modifies kernel, kernel.ring, kernel.ring.buf, memory, memory.ram`mem, memory.ram`used, memory.ram.bitmap
      modifies table`fds, this`steps, this`requests, this`outs, this`trace
      ensures Valid() && memory.leaked == old(memory.leaked) && Took(OpOf(call, resched), out)
      ensures OthersKeep({})
    {
      hide Keeps;
      hide ProcessKernel.Kernel.Valid, ProcessMemory.Kernel.Valid, Vfs.Table.Valid, Vfs.Table.Uniform, System.Logged;
      hide VfsRuns.IsTrace, VfsRuns.OffsetStep, VfsRuns.UseStep, VfsRuns.FileStep, VfsRuns.ReadStep;
      hide ProcessRuns.Run, ProcessModel.WellFormed, ProcessModel.Step, ProcessInvariant.TableOk, Joined;
      out, resched := Advance(kernel, call);
      ghost var op := OpOf(call, resched);
      StepFrees(old(kernel.View()), op);
      FreedIsBehind(old(kernel.procs), kernel.procs, memory.slots, table.fds);
      ReleaseFreed();
      Note(old(kernel.View()), op);
    }

    /** The end of a spawn: the slot that was given memory gets its process. */
    method HandOut(ghost op: ProcessModel.Op, ghost s: ProcessModel.Sys, ghost slots: seq<ProcessMemory.Slot>, ghost r: Option<nat>)
      returns (out: ProcessModel.Outcome)
      requires PartsOk() && Logged() && HasRoot() && (op == ProcessModel.Clone(true) || op == ProcessModel.Fork)
      requires ProcessModel.WellFormed(start) && s == ProcessRuns.Run(start, steps)
      requires ProcessInvariant.Inv(s) && ProcessModel.Enabled(s, op)
      requires kernel.View() == s.(procs := ProcessModel.Reap(s.procs)) && ProcessModel.Reap(kernel.procs) == kernel.procs
      requires Joined(kernel.procs, slots, table.fds) && SlotTaken(slots, memory.slots, r)
      modifies kernel`procs, kernel`slices, this`steps
      ensures Valid() && (kernel.View(), out) == ProcessModel.Step(s, op) && steps == old(steps) + [op]
      ensures out == ProcessModel.Returned(if r.Some? then r.value else -1)
      ensures r.Some? ==> r.value < |kernel.procs| && kernel.procs[r.value].state == ProcessModel.Runnable
      ensures |kernel.procs| == |old(kernel.procs)|
      ensures forall j: nat :: j < |kernel.procs| && r != Some(j) ==> kernel.procs[j] == old(kernel.procs)[j]
    {
      hide ProcessKernel.Kernel.Valid, ProcessMemory.Kernel.Valid, Vfs.Table.Valid, Vfs.Table.Uniform, System.Logged;
      hide ProcessRuns.Run, ProcessModel.Step, ProcessModel.SpawnStep, ProcessInvariant.TableOk, Joined, SlotTaken;
      SpawnJoins(kernel.View(), slots, table.fds, memory.slots, r);
      SpawnIs(s, op);
      out := kernel.SpawnChild();
      Note(s, op);
    }

    /** `fs_fork_copy_fds`. */
    method CopyDescriptors(parent: nat, child: nat)
      requires PartsOk() && Logged() && Joined(kernel.procs, memory.slots, table.fds)
      requires parent < |kernel.procs| && child < |kernel.procs| && kernel.procs[child].state != ProcessModel.Unused
      modifies table`fds, this`requests, this`outs, this`trace
      ensures PartsOk() && Logged() && Joined(kernel.procs, memory.slots, table.fds)
      ensures parent < |table.fds| && child < |table.fds| && table.fds[child] == table.fds[parent]
      ensures |table.fds| == |old(table.fds)| && forall j: nat :: j < |table.fds| && j != child ==> table.fds[j] == old(table.fds)[j]
    {
      hide ProcessKernel.Kernel.Valid, ProcessMemory.Kernel.Valid, Vfs.Table.Valid, Vfs.Table.Uniform, System.Logged;
      ghost var before := VfsRuns.Now(table);
      TableOp(VfsRuns.Fork(parent, child));
      ForkJoins(kernel.procs, memory.slots, parent, child, before, VfsRuns.Now(table));
    }

    /** `create_process` after its reaping, up to the process table. */
    method BuildClone(image: seq<byte>) returns (panicked: bool, r: Option<nat>)
      requires memory.Valid() && table.Valid() && HasRoot() && Apart() && AddressSpaces.PageCount(image) <= AddressSpaces.USER_LIMIT
      modifies memory, memory.ram`mem, memory.ram`used, memory.ram.bitmap
      ensures panicked ==> memory.ram.used == memory.ram.mem.Keys
      ensures !panicked ==> memory.Valid() && memory.leaked == old(memory.leaked) && SlotTaken(old(memory.slots), memory.slots, r)
      ensures !panicked ==> |memory.slots| == |old(memory.slots)|
      ensures !panicked ==> forall j: nat :: j < |memory.slots| && r != Some(j) ==>
        ProcessMemory.SameSpace(old(memory.ram.mem), old(memory.spaces), memory.ram.mem, memory.spaces, j)
      ensures !panicked && r.Some? ==> ImageLoaded(r.value, image)
    {
      hide AddressSpaces.Owned, AddressSpaces.Loaded, ProcessMemory.Kernel.Valid, Vfs.Table.Valid;
      memory.InUseHasSpace();
      var entry := table.GetRootEntry();
      panicked, r := memory.CreateProcess(image, entry.Some?);
      if !panicked {
        memory.InUseHasSpace();
        if r.Some? {
          memory.Spared(r.value);
        } else {
          memory.AllSpared();
        }
      }
    }

    /** `syscall_handle_clone` with the image of an application. */
    method CloneCall(image: seq<byte>) returns (panicked: bool, out: ProcessModel.Outcome)
      requires Valid() && kernel.Calling() && AddressSpaces.PageCount(image) <= AddressSpaces.USER_LIMIT
      modifies kernel, kernel.ring, kernel.ring.buf, memory, memory.ram`mem, memory.ram`used, memory.ram.bitmap
      modifies table`fds, this`steps, this`requests, this`outs, this`trace
      ensures panicked ==> memory.ram.used == memory.ram.mem.Keys
      ensures !panicked ==> Valid() && memory.leaked == old(memory.leaked) && Took(ProcessModel.Clone(true), out) && OthersKeep(Made(out))
      ensures !panicked && Made(out) != {} ==> ImageLoaded(out.value, image)
    {
      hide Keeps, System.ImageLoaded, ProcessKernel.Kernel.Valid, ProcessMemory.Kernel.Valid, Vfs.Table.Valid;
      hide Vfs.Table.Uniform, System.Logged;
      hide ProcessRuns.Run, ProcessModel.WellFormed, ProcessModel.Step, ProcessModel.SpawnStep, ProcessInvariant.TableOk;
      hide Joined, SlotTaken;
      out := ProcessModel.Suspended;
      ghost var s := kernel.View();
      ReapAndRelease();
      ghost var reaped, between := kernel.procs, Held();
      ghost var slots := memory.slots;
      var r;
      panicked, r := BuildClone(image);
      if panicked {
        return;
      }
      OnlyMemory(between, Held(), r);
      out := HandOut(ProcessModel.Clone(true), s, slots, r);
      SpawnSpares(reaped, kernel.procs, r, out, old(Held()), between, Held());
    }

    /** The memory work of `process_fork`. */
    method BuildFork(cur: nat) returns (panicked: bool, r: Option<nat>)
      requires memory.Valid() && cur < |memory.slots| && memory.slots[cur].inUse
      modifies memory, memory.ram`mem, memory.ram`used, memory.ram.bitmap
      ensures panicked ==> memory.ram.used == memory.ram.mem.Keys
      ensures !panicked ==> memory.Valid() && memory.leaked == old(memory.leaked) && SlotTaken(old(memory.slots), memory.slots, r)
      ensures !panicked ==> |memory.slots| == |old(memory.slots)|
      ensures !panicked ==> forall j: nat :: j < |memory.slots| && r != Some(j) ==>
        ProcessMemory.SameSpace(old(memory.ram.mem), old(memory.spaces), memory.ram.mem, memory.spaces, j)
      ensures !panicked && r.Some? ==> MemoryCopied(cur, r.value)
    {
      hide ProcessMemory.Kernel.Valid, ProcessMemory.Forked, AddressSpaces.Owned;
      memory.InUseHasSpace();
      panicked, r := memory.Fork(cur);
      if !panicked {
        memory.InUseHasSpace();
        if r.Some? {
          memory.Spared(r.value);
        } else {
          memory.AllSpared();
        }
      }
    }

    /** Slot `i` has the pages of the image, zero-padded, and no others. */
    ghost predicate ImageLoaded(i: nat, image: seq<byte>)
      reads memory, memory.ram
    {
      && i < |memory.spaces| && memory.spaces[i].Some?
      && |memory.spaces[i].value.user| == AddressSpaces.PageCount(image)
      && AddressSpaces.Loaded(memory.ram.mem, memory.spaces[i].value.user, image)
    }

    /** The child has the parent's pages, in frames of its own. */
    ghost predicate MemoryCopied(parent: nat, child: nat)
      reads memory, memory.ram
    {
      && parent < |memory.spaces| && child < |memory.spaces| && memory.spaces[parent].Some? && memory.spaces[child].Some?
      && ProcessMemory.Forked(memory.ram.mem, memory.spaces[parent].value, memory.spaces[child].value)
    }

    /** `syscall_handle_clone`. */
    method CloneApp(app: Option<seq<byte>>) returns (panicked: bool, out: ProcessModel.Outcome)
      requires Valid() && kernel.Calling() && Loadable(Clone(app))
      modifies kernel, kernel.ring, kernel.ring.buf, memory, memory.ram`mem, memory.ram`used, memory.ram.bitmap
      modifies table`fds, this`steps, this`requests, this`outs, this`trace
      ensures panicked ==> memory.ram.used == memory.ram.mem.Keys
      ensures !panicked ==> Valid() && memory.leaked == old(memory.leaked) && Took(ProcessModel.Clone(app.Some?), out) && OthersKeep(Made(out))
      ensures !panicked && Made(out) != {} ==> app.Some? && ImageLoaded(out.value, app.value)
    {
      hide Keeps, System.ImageLoaded, ProcessKernel.Kernel.Valid, ProcessMemory.Kernel.Valid, Vfs.Table.Valid;
      hide Vfs.Table.Uniform, System.Logged;
      hide ProcessRuns.Run, ProcessModel.Step, ProcessInvariant.TableOk, Joined;
      if app.Some? {
        panicked, out := CloneCall(app.value);
      } else {
        ghost var op := ProcessModel.Clone(false);
        CloneFails(kernel.View());
        Note(kernel.View(), op);
        EverybodyKeeps({});
        return false, ProcessModel.Returned(-1);
      }
    }

    /** A call that nobody can make now. */
    ghost method Ignore(call: Call) returns (op: ProcessModel.Op)
      requires Valid() && !call.Files? && !ProcessModel.Enabled(kernel.View(), OpOf(call, false))
      modifies this`steps
      ensures Valid() && OpOf(call, false) == op && Took(op, ProcessModel.Suspended)
      ensures OthersKeep(Remade(call, ProcessModel.Suspended, kernel.cur)) && Filled(call, ProcessModel.Suspended, kernel.cur)
      ensures table.AllNodes() == old(table.AllNodes())
    {
      hide Keeps, System.Logged;
      hide ProcessKernel.Kernel.Valid, ProcessMemory.Kernel.Valid, Vfs.Table.Valid, Vfs.Table.Uniform;
      hide ProcessRuns.Run, ProcessModel.Step, ProcessInvariant.TableOk, Joined, Remade;
      op := OpOf(call, false);
      NotEnabled(kernel.View(), op);
      Note(kernel.View(), op);
      EverybodyKeeps(Remade(call, ProcessModel.Suspended, kernel.cur));
    }

    /** An operation on files by a process in use. */
    method FilesCall(op: VfsRuns.Op) returns (read: seq<byte>)
      requires Valid() && Asked(op, kernel.procs)
      modifies table`fds, table.Ctxs(), table.Disks(), this`requests, this`outs, this`trace
      ensures Valid() && kernel.View() == old(kernel.View()) && requests == old(requests) + [op] && outs == old(outs) + [read]
    {
      hide ProcessKernel.Kernel.Valid, ProcessMemory.Kernel.Valid, Vfs.Table.Valid, Vfs.Table.Uniform, System.Logged;
      hide ProcessRuns.Run, ProcessModel.Step, ProcessInvariant.TableOk, Joined, Asked;
      ghost var before := VfsRuns.Now(table);
      read := FileOp(op);
      FilesKeepJoined(op, kernel.procs, memory.slots, before, VfsRuns.Now(table));
    }

    /** `process_fork`: a child with the caller's memory and the caller's descriptors. */
    method ForkCall() returns (panicked: bool, out: ProcessModel.Outcome)
      requires Valid() && kernel.Calling()
      modifies kernel, kernel.ring, kernel.ring.buf, memory, memory.ram`mem, memory.ram`used, memory.ram.bitmap
      modifies table`fds, this`steps, this`requests, this`outs, this`trace
      ensures panicked ==> memory.ram.used == memory.ram.mem.Keys
      ensures !panicked ==> Valid() && memory.leaked == old(memory.leaked) && Took(ProcessModel.Fork, out)
      ensures !panicked ==> out.Returned? && OthersKeep(Made(out))
      ensures !panicked && out.value >= 0 ==>
        && MemoryCopied(old(kernel.cur), out.value)
        && old(kernel.cur) < |table.fds| && out.value < |table.fds| && table.fds[out.value] == table.fds[old(kernel.cur)]
    {
      hide Keeps, ProcessKernel.Kernel.Valid, ProcessMemory.Kernel.Valid, Vfs.Table.Valid, Vfs.Table.Uniform, System.Logged;
      hide ProcessRuns.Run, ProcessModel.WellFormed, ProcessModel.Step, ProcessModel.SpawnStep, ProcessInvariant.TableOk;
      hide Joined, SlotTaken, System.MemoryCopied;
      out := ProcessModel.Suspended;
      ghost var s := kernel.View();
      var parent := kernel.cur;
      ReapAndRelease();
      ghost var reaped, between := kernel.procs, Held();
      ghost var slots := memory.slots;
      CallerHasMemory(kernel.View(), slots, table.fds);
      var r;
      panicked, r := BuildFork(parent);
      if panicked {
        return;
      }
      OnlyMemory(between, Held(), r);
      out := HandOut(ProcessModel.Fork, s, slots, r);
      if r.Some? {
        ghost var built := Held();
        CopyDescriptors(parent, r.value);
        RowSpares(between, built, Held(), r.value);
      }
      SpawnSpares(reaped, kernel.procs, r, out, old(Held()), between, Held());
    }

    /** `syscall_handle_exec`. */
    method ExecCall(app: Option<seq<byte>>) returns (panicked: bool, out: ProcessModel.Outcome)
      requires Valid() && kernel.Calling() && Loadable(Exec(app))
      modifies kernel, kernel.ring, kernel.ring.buf, memory, memory.ram`mem, memory.ram`used, memory.ram.bitmap, this`steps
      ensures panicked ==> memory.ram.used == memory.ram.mem.Keys
      ensures !panicked ==> Valid() && memory.leaked == old(memory.leaked) && Took(ProcessModel.Exec(Loads(app)), out)
      ensures !panicked ==> OthersKeep(Remade(Exec(app), out, old(kernel.cur))) && Filled(Exec(app), out, old(kernel.cur))
    {
      hide Keeps, System.ImageLoaded, System.Logged;
      hide ProcessKernel.Kernel.Valid, ProcessMemory.Kernel.Valid, Vfs.Table.Valid, Vfs.Table.Uniform;
      hide ProcessRuns.Run, ProcessModel.Step, ProcessInvariant.TableOk, Joined;
      if app.None? {
        ghost var op := ProcessModel.Exec(false);
        ExecIs(kernel.View(), op);
        Note(kernel.View(), op);
        EverybodyKeeps({kernel.cur});
        return false, ProcessModel.Returned(-1);
      }
      panicked, out := ExecImage(app.value);
    }

    /** `process_exec`. */
    method ExecImage(image: seq<byte>) returns (panicked: bool, out: ProcessModel.Outcome)
      requires Valid() && kernel.Calling() && AddressSpaces.PageCount(image) <= AddressSpaces.USER_LIMIT
      modifies kernel, kernel.ring, kernel.ring.buf, memory, memory.ram`mem, memory.ram`used, memory.ram.bitmap, this`steps
      ensures panicked ==> memory.ram.used == memory.ram.mem.Keys
      ensures !panicked ==> Valid() && memory.leaked == old(memory.leaked) && Took(ProcessModel.Exec(image != []), out)
      ensures !panicked ==>
        OthersKeep(Remade(Exec(Some(image)), out, old(kernel.cur))) && Filled(Exec(Some(image)), out, old(kernel.cur))
    {
      hide Keeps, System.ImageLoaded, System.Logged, Console.Ring.Valid;
      hide ProcessKernel.Kernel.Shaped, ProcessKernel.Kernel.Valid, ProcessMemory.Kernel.Valid, Vfs.Table.Valid;
      hide Vfs.Table.Uniform;
      hide ProcessRuns.Run, ProcessModel.Step, ProcessInvariant.TableOk, Joined;
      ghost var s, op := kernel.View(), ProcessModel.Exec(image != []);
      EverybodyKeeps({kernel.cur});
      ExecIs(s, op);
      CallerHasMemory(s, memory.slots, table.fds);
      out := ProcessModel.Returned(-1);
      var done;
      panicked, done := ReplaceImage(kernel.cur, image);
      if panicked {
        return;
      }
      OnlyMemory(old(Held()), Held(), Some(kernel.cur));
      ExecJoins(s, old(memory.slots), memory.slots, table.fds);
      if done {
        out := kernel.ResetForExec();
      }
      Note(s, op);
    }

    /** The memory work of `process_exec`. */
    method ReplaceImage(cur: nat, image: seq<byte>) returns (panicked: bool, done: bool)
      requires memory.Valid() && cur < |memory.slots| && memory.slots[cur].inUse
      requires AddressSpaces.PageCount(image) <= AddressSpaces.USER_LIMIT
      modifies memory, memory.ram`mem, memory.ram`used, memory.ram.bitmap
      ensures panicked ==> memory.ram.used == memory.ram.mem.Keys
      ensures !panicked ==> memory.Valid() && memory.leaked == old(memory.leaked) && (done <==> image != [])
      ensures !panicked ==>
        && |memory.slots| == |old(memory.slots)|
        && forall i :: 0 <= i < |memory.slots| ==> memory.slots[i].inUse == old(memory.slots)[i].inUse
      ensures !panicked ==> forall j: nat :: j < |memory.slots| && j != cur ==>
        ProcessMemory.SameSpace(old(memory.ram.mem), old(memory.spaces), memory.ram.mem, memory.spaces, j)
      ensures !panicked && done ==> ImageLoaded(cur, image)
    {
      hide ProcessMemory.Kernel.Valid, AddressSpaces.Owned, AddressSpaces.Loaded;
      memory.InUseHasSpace();
      panicked, done := memory.Exec(cur, image);
      if !panicked {
        memory.InUseHasSpace();
        memory.Spared(cur);
      }
    }

    /** What a call leaves in the slot it hands out or gives a new image. */
    ghost predicate Filled(call: Call, out: ProcessModel.Outcome, cur: nat)
      reads memory, memory.ram, table
    {
      && (call.Clone? && Made(out) != {} ==> call.app.Some? && ImageLoaded(out.value, call.app.value))
      && (call.Fork? && Made(out) != {} ==>
            MemoryCopied(cur, out.value) && cur < |table.fds| && out.value < |table.fds| && table.fds[out.value] == table.fds[cur])
      && (call.Exec? && out == ProcessModel.Returned(0) ==> Loads(call.app) && ImageLoaded(cur, call.app.value))
    }

    /** A call that can be made now, other than on files. */
    method EnabledCall(call: Call) returns (panicked: bool, out: ProcessModel.Outcome, ghost resched: bool)
      requires Valid() && Loadable(call) && !call.Files? && !kernel.halted && (call.Tick? || ProcessModel.Running(kernel.View()))
      modifies kernel, kernel.ring, kernel.ring.buf, memory, memory.ram`mem, memory.ram`used, memory.ram.bitmap
      modifies table`fds, this`steps, this`requests, this`outs, this`trace
      ensures panicked ==> memory.ram.used == memory.ram.mem.Keys
      ensures !panicked ==> Valid() && memory.leaked == old(memory.leaked) && Took(OpOf(call, resched), out)
      ensures !panicked ==> OthersKeep(Remade(call, out, old(kernel.cur)))
      ensures !panicked ==> Filled(call, out, old(kernel.cur)) && table.AllNodes() == old(table.AllNodes())
    {
      hide Keeps, System.ImageLoaded, System.MemoryCopied, ProcessKernel.Kernel.Valid, ProcessMemory.Kernel.Valid;
      hide Vfs.Table.Valid, Vfs.Table.Uniform, System.Logged;
      hide ProcessRuns.Run, ProcessModel.Step, ProcessInvariant.TableOk, Joined;
      panicked, resched := false, false;
      if call.Fork? {
        panicked, out := ForkCall();
      } else if call.Clone? {
        panicked, out := CloneApp(call.app);
      } else if call.Exec? {
        panicked, out := ExecCall(call.app);
      } else {
        out, resched := AdvanceCall(call);
      }
    }

    /** Any call; a panic ends the run.  `read` is what an operation on files read. */
    method Perform(call: Call) returns (panicked: bool, out: ProcessModel.Outcome, read: seq<byte>, ghost resched: bool)
      requires Valid() && Loadable(call)
      modifies kernel, kernel.ring, kernel.ring.buf, memory, memory.ram`mem, memory.ram`used, memory.ram.bitmap
      modifies table`fds, table.Ctxs(), table.Disks(), this`steps, this`requests, this`outs, this`trace
      ensures panicked ==> memory.ram.used == memory.ram.mem.Keys
      ensures !panicked ==> Valid() && memory.leaked == old(memory.leaked)
      ensures !panicked && !call.Files? ==> Took(OpOf(call, resched), out)
      ensures !panicked && !call.Files? ==> OthersKeep(Remade(call, out, old(kernel.cur))) && Filled(call, out, old(kernel.cur))
      ensures !panicked && !call.Files? ==> table.AllNodes() == old(table.AllNodes())
      ensures !panicked && call.Files? ==>
        && kernel.View() == old(kernel.View()) && steps == old(steps)
        && memory.ram.mem == old(memory.ram.mem) && memory.spaces == old(memory.spaces)
        && if kernel.halted || !Asked(call.op, kernel.procs) then requests == old(requests) && read == []
           else requests == old(requests) + [call.op] && outs == old(outs) + [read]
    {
      hide System.Valid, System.Took, System.OthersKeep, System.Filled, Remade, OpOf, ProcessModel.Step;
      panicked, out, read, resched := false, ProcessModel.Suspended, [], false;
      var running := kernel.procs[kernel.cur].state == ProcessModel.Runnable && kernel.procs[kernel.cur].pid > 0;
      if call.Files? {
        if !kernel.halted && Asked(call.op, kernel.procs) {
          read := FilesCall(call.op);
        }
      } else if kernel.halted || (!call.Tick? && !running) {
        CallIsStep(call);
        ghost var op := Ignore(call);
      } else {
        panicked, out, resched := EnabledCall(call);
      }
    }

    // ----- runs -----

    /** Any sequence of calls from boot on; the only panic is the exhaustion of memory. */
    method Run(calls: seq<Call>) returns (panicked: bool)
      requires Valid() && forall k :: 0 <= k < |calls| ==> Loadable(calls[k])
      modifies kernel, kernel.ring, kernel.ring.buf, memory, memory.ram`mem, memory.ram`used, memory.ram.bitmap
      modifies table`fds, table.Ctxs(), table.Disks(), this`steps, this`requests, this`outs, this`trace
      ensures panicked ==> memory.ram.used == memory.ram.mem.Keys
      ensures !panicked ==> Valid() && memory.leaked == old(memory.leaked)
      ensures !panicked ==> |steps| >= |old(steps)| && steps[..|old(steps)|] == old(steps) && Follows(calls, steps[|old(steps)|..])
    {
      hide System.Valid, Follows, ProcessModel.Step, ProcessKernel.Kernel.View, ProcessKernel.Kernel.Shaped;
      ghost var n := |steps|;
      panicked := false;
      FollowsNothing();
      assert steps[n..] == [];
      for k := 0 to |calls|
        invariant Valid() && !panicked && memory.leaked == old(memory.leaked)
        invariant |steps| >= n && steps[..n] == old(steps) && Follows(calls[..k], steps[n..])
      {
        ghost var before := steps;
        var out, read;
        ghost var resched;
        panicked, out, read, resched := Perform(calls[k]);
        if panicked {
          return;
        }
        FollowsStep(calls, k, before, n, steps, resched);
      }
      assert calls[..|calls|] == calls;
    }

    /**
     At every moment of a run, down to single frames and descriptors: the frames
     in use are exactly those of the processes in the table, each with one owner,
     and a slot that is free has neither memory nor descriptors.
     */
    lemma NothingLeaks(i: nat)
      requires Valid() && memory.leaked == {} && i < |kernel.procs|
      ensures |memory.spaces| == |kernel.procs| == |table.fds|
      ensures forall f :: f in memory.ram.used <==>
        exists j :: 0 <= j < |kernel.procs| && kernel.procs[j].state != ProcessModel.Unused && f in AddressSpaces.OwnedBy(memory.spaces, j)
      ensures forall j :: 0 <= j < |kernel.procs| && j != i ==>
        AddressSpaces.OwnedBy(memory.spaces, i) !! AddressSpaces.OwnedBy(memory.spaces, j)
      ensures kernel.procs[i].state != ProcessModel.Unused <==> AddressSpaces.OwnedBy(memory.spaces, i) != {}
      ensures kernel.procs[i].state == ProcessModel.Unused ==> NoFds(table.fds[i])
    {
      hide ProcessKernel.Kernel.Valid, Vfs.Table.Valid, Vfs.Table.Uniform, System.Logged, System.Replayed;
      hide AddressSpaces.SpacesOk, AddressSpaces.Owned, NoFds;
      memory.InUseHasSpace();
      assert SlotJoined(kernel.procs[i], memory.slots[i], table.fds[i]);
      if memory.spaces[i].Some? {
        RootOwned(memory.spaces[i].value);
      }
      forall f | f in memory.ram.used
        ensures exists j :: 0 <= j < |kernel.procs| && kernel.procs[j].state != ProcessModel.Unused && f in AddressSpaces.OwnedBy(memory.spaces, j)
      {
        var j :| 0 <= j < |memory.spaces| && f in AddressSpaces.OwnedBy(memory.spaces, j);
        assert SlotJoined(kernel.procs[j], memory.slots[j], table.fds[j]);
      }
    }
  }
  /** The tables `kernel_bootstrap` and `kernel_main` leave agree. */
  lemma BootJoins(slots: nat, capacity: nat, memory: seq<ProcessMemory.Slot>, fds: seq<seq<NodefsModule.Fd>>)
    requires slots >= 2 && |memory| == |fds| == slots && forall i :: 0 <= i < slots ==> (memory[i].inUse <==> i < 2) && NoFds(fds[i])
    ensures ProcessInvariant.Inv(ProcessModel.Boot(slots, capacity))
    ensures Joined(ProcessModel.Boot(slots, capacity).procs, memory, fds)
  {
    hide ProcessInvariant.TableOk, ProcessModel.Pick, NoFds;
    ProcessRuns.BootOk(slots, capacity);
    ProcessRuns.BootTable(slots);
  }

  /** `create_process` at boot, in the next slot. */
  method BootProcess(memory: ProcessMemory.Kernel, table: Vfs.Table, image: seq<byte>, ghost n: nat) returns (panicked: bool)
    requires memory.Valid() && table.Valid() && AddressSpaces.PageCount(image) <= AddressSpaces.USER_LIMIT && n < |memory.slots|
    requires exists i :: 0 <= i < |table.mounts| && table.mounts[i].Some? && table.mounts[i].value.path == [SLASH]
    requires forall i :: 0 <= i < |memory.slots| ==> (memory.slots[i].inUse <==> i < n)
    modifies memory, memory.ram`mem, memory.ram`used, memory.ram.bitmap
    ensures panicked ==> memory.ram.used == memory.ram.mem.Keys
    ensures !panicked ==> memory.Valid() && memory.leaked == old(memory.leaked) && |memory.slots| == |old(memory.slots)|
    ensures !panicked ==> forall i :: 0 <= i < |memory.slots| ==> (memory.slots[i].inUse <==> i < n + 1)
  {
    hide ProcessMemory.Kernel.Valid, Vfs.Table.Valid, AddressSpaces.Loaded;
    memory.InUseHasSpace();
    var entry := table.GetRootEntry();
    assert !memory.slots[n].inUse && entry.Some?;
    var r;
    panicked, r := memory.CreateProcess(image, entry.Some?);
    if !panicked {
      memory.InUseHasSpace();
      assert r.value == n;
    }
  }

  /** The idle process and the shell get their memory. */
  method BootMemory(ram: PhysicalMemory.Ram, end: nat, slots: nat, table: Vfs.Table, shell: seq<byte>)
    returns (panicked: bool, memory: ProcessMemory.Kernel)
    requires ram.Valid() && ram.used == {} && AddressSpaces.KERNEL_PAGE <= end <= PageTables.VPN_LIMIT
    requires slots >= 2 && AddressSpaces.PageCount(shell) <= AddressSpaces.USER_LIMIT && table.Valid()
    requires exists i :: 0 <= i < |table.mounts| && table.mounts[i].Some? && table.mounts[i].value.path == [SLASH]
    modifies ram`mem, ram`used, ram.bitmap
    ensures panicked ==> ram.used == ram.mem.Keys
    ensures fresh(memory) && memory.ram == ram
    ensures !panicked ==> memory.Valid() && memory.leaked == {} && |memory.slots| == slots
    ensures !panicked ==> forall i :: 0 <= i < slots ==> (memory.slots[i].inUse <==> i < 2)
  {
    hide ProcessMemory.Kernel.Valid, NodefsModule.Nodefs.Valid;
    memory := new ProcessMemory.Kernel(ram, end, slots);
    memory.InUseHasSpace();
    panicked := BootProcess(memory, table, [], 0);
    if panicked {
      return;
    }
    panicked := BootProcess(memory, table, shell, 1);
  }

  /** `kernel_bootstrap` after `memory_init` and `fs_init`, and `kernel_main`: the idle process, the shell, the first `yield`. */
  method Boot(ram: PhysicalMemory.Ram, end: nat, slots: nat, capacity: nat, table: Vfs.Table, shell: seq<byte>)
    returns (panicked: bool, system: System?)
    requires ram.Valid() && ram.used == {} && AddressSpaces.KERNEL_PAGE <= end <= PageTables.VPN_LIMIT
    requires slots >= 2 && capacity > 0 && AddressSpaces.PageCount(shell) <= AddressSpaces.USER_LIMIT
    requires table.Valid() && table.Uniform() && |table.fds| == slots && forall i :: 0 <= i < slots ==> NoFds(table.fds[i])
    requires exists i :: 0 <= i < |table.mounts| && table.mounts[i].Some? && table.mounts[i].value.path == [SLASH]
    modifies ram`mem, ram`used, ram.bitmap
    ensures panicked ==> ram.used == ram.mem.Keys
    ensures !panicked ==>
      && system != null && system.Valid() && system.start == ProcessModel.Boot(slots, capacity) && system.memory.leaked == {}
      && system.kernel.View() == ProcessModel.Boot(slots, capacity) && system.table == table
  {
    hide ProcessMemory.Kernel.Valid, NodefsModule.Nodefs.Valid, NoFds, ProcessInvariant.Inv, ProcessModel.Boot;
    hide ProcessKernel.Kernel.Valid;
    hide ProcessKernel.Kernel.Shaped, System.Valid, Joined;
    system := null;
    var memory;
    panicked, memory := BootMemory(ram, end, slots, table, shell);
    if panicked {
      return;
    }
    var kernel := new ProcessKernel.Kernel(slots, capacity);
    BootJoins(slots, capacity, memory.slots, table.fds);
    system := new System(kernel, memory, table);
  }

  /** From power-on to the first run of the shell: the file systems, then the processes. */
  method PowerOn(ram: PhysicalMemory.Ram, end: nat, slots: nat, capacity: nat, disk: FsImage.Disk, nodes: nat, perProc: nat, shell: seq<byte>)
    returns (panicked: bool, system: System?)
    requires ram.Valid() && ram.used == {} && AddressSpaces.KERNEL_PAGE <= end <= PageTables.VPN_LIMIT
    requires slots >= 2 && capacity > 0 && AddressSpaces.PageCount(shell) <= AddressSpaces.USER_LIMIT
    requires 0 < nodes < 0x8000_0000 && FsInit.Bootable(disk.blocks, nodes)
    modifies disk, ram`mem, ram`used, ram.bitmap
    ensures !panicked ==> system != null && system.Valid() && system.start == ProcessModel.Boot(slots, capacity) && system.memory.leaked == {}
  {
    hide Vfs.Table.Valid, Vfs.Table.Uniform, PhysicalMemory.Ram.Valid, System.Valid, ProcessModel.Boot;
    hide FsImage.BootNodes, FsInit.WithDirectory, FsImage.Formatted, FsTree.Tree;
    system := null;
    var ok, table := FsInit.Init(disk, nodes, slots, perProc);
    if !ok {
      return true, system;
    }
    FsInit.RootMounted(table);
    panicked, system := Boot(ram, end, slots, capacity, table, shell);
  }
}
