/**
 The process routines with the kernel's own loops over `procs[]`, each proved to
 compute the function of ProcessModel.dfy that gives its meaning.
 */
module ProcessKernel {
  import opened CTypes
  import opened ProcessModel
  import Console

  /** `SCHED_TIME_SLICE_TICKS`. */
  const TIME_SLICE := 3

  /** The scan of `yield` starts at the caller's own slot. */
  lemma CallerFirst(ps: Procs, cur: nat)
    requires cur < |ps| && ps[cur].pid == cur && Dispatchable(ps[cur])
    ensures Pick(ps, cur, 0) == Some(cur)
  {
    assert (cur + 0) % |ps| == cur;
  }

  class Kernel {
    var procs: Procs
    /** Ticks left to each process. */
    var slices: seq<nat>
    var cur: nat
    var init: nat
    var halted: bool
    var needResched: bool
    const ring: Console.Ring

    ghost predicate Shaped()
      reads this, ring
    {
      && ring.Valid() && cur < |procs| && init < |procs| == |slices|
      && forall i :: 0 <= i < |procs| ==> procs[i].pid == if procs[i].state == Unused then 0 else i
    }

    /** Only a process that can run on may have used up its slice, and only inside the interrupt. */
    ghost predicate Settling()
      reads this, ring
    {
      && Shaped() && (needResched ==> Dispatchable(procs[cur]))
      && forall i :: 0 <= i < |procs| && procs[i].state != Unused ==>
           slices[i] <= TIME_SLICE && (slices[i] > 0 || (i == cur && Dispatchable(procs[i])))
    }

    /** Between system calls and interrupts every process has ticks left, and no reschedule is due. */
    ghost predicate Valid()
      reads this, ring
      ensures Valid() ==> Shaped()
    {
      && Shaped() && !needResched
      && forall i :: 0 <= i < |procs| && procs[i].state != Unused ==> 0 < slices[i] <= TIME_SLICE
    }

    /** A system call comes from the running process. */
    ghost predicate Calling()
      reads this, ring, ring.buf
      ensures Calling() ==> Valid()
    {
      Valid() && !halted && Running(View())
    }

    /** The state of the transition system. */
    ghost function View(): (s: Sys)
      requires Shaped()
      reads this, ring, ring.buf
      ensures WellFormed(s)
    {
      Sys(procs, cur, init, ring.Contents(), ring.Capacity(), halted)
    }

    /** `kernel_bootstrap` and `kernel_main`: idle, then init, then the first `yield`. */
    constructor (slots: nat, capacity: nat)
      requires slots >= 2 && capacity > 0
      ensures Valid() && View() == Boot(slots, capacity)
      ensures fresh(ring) && fresh(ring.buf)
    {
      procs := Blank(slots);
      slices := seq(slots, _ => 0);
      cur, init, halted, needResched := 0, 1, false, false;
      ring := new Console.Ring(capacity);
      new;
      var idle := SpawnChild();
      assert procs == Spawn(Blank(slots), 0).0;
      var first := SpawnChild();
      YieldCpu();
    }

    // ----- loops over the table -----

    method ReapExitedProcesses()
      requires Shaped()
      modifies this`procs, this`slices
      ensures procs == Reap(old(procs)) && Shaped() && (old(Valid()) ==> Valid()) && (old(Settling()) ==> Settling())
      ensures forall i :: 0 <= i < |procs| && procs[i].state != Unused ==> slices[i] == old(slices)[i]
    {
      for i := 0 to |procs|
        invariant |procs| == |old(procs)| == |slices|
        invariant forall j :: 0 <= j < i ==> procs[j] == Reap(old(procs))[j]
        invariant forall j :: i <= j < |procs| ==> procs[j] == old(procs)[j]
        invariant forall j :: 0 <= j < |procs| && procs[j].state != Unused ==> slices[j] == old(slices)[j]
      {
        if procs[i].state != Exited {
          continue;
        }
        if procs[i].parent == 0 {
          RecycleSlot(i);
        }
      }
      assert procs == Reap(old(procs));
    }

    /** What `recycle_process_slot` does to the table. */
    method RecycleSlot(i: nat)
      requires i < |procs| == |slices|
      modifies this`procs, this`slices
      ensures procs == old(procs)[i := RECYCLED] && slices == old(slices)[i := TIME_SLICE]
    {
      procs := procs[i := RECYCLED];
      slices := slices[i := TIME_SLICE];
    }

    method FindProcessByPid(pid: int) returns (r: Option<nat>)
      ensures r == FindByPid(procs, pid)
    {
      if pid <= 0 {
        return None;
      }
      for i := 0 to |procs|
        invariant forall j :: 0 <= j < i ==> !(procs[j].pid == pid && procs[j].state != Unused)
      {
        if procs[i].pid == pid && procs[i].state != Unused {
          return Some(i);
        }
      }
      return None;
    }

    method FindFreeSlot() returns (r: Option<nat>)
      ensures r == FreeSlot(procs)
    {
      for i := 0 to |procs|
        invariant forall j :: 0 <= j < i ==> procs[j].state != Unused
      {
        if procs[i].state == Unused {
          return Some(i);
        }
      }
      return None;
    }

    method WakeupInputWaiters()
      requires Valid()
      modifies this`procs
      ensures procs == WakeInputWaiters(old(procs)) && Valid()
    {
      for i := 0 to |procs|
        invariant |procs| == |old(procs)|
        invariant forall j :: 0 <= j < i ==> procs[j] == WakeInputWaiters(old(procs))[j]
        invariant forall j :: i <= j < |procs| ==> procs[j] == old(procs)[j]
      {
        if procs[i].state == Waiting && procs[i].reason == ConsoleInput {
          procs := procs[i := procs[i].(state := Runnable, reason := NoWait, waitPid := -1)];
        }
      }
      assert procs == WakeInputWaiters(old(procs));
    }

    method Orphan(parent: int)
      requires Valid()
      modifies this`procs
      ensures procs == OrphanChildren(old(procs), parent) && Valid()
    {
      if parent <= 0 {
        return;
      }
      for i := 0 to |procs|
        invariant |procs| == |old(procs)|
        invariant forall j :: 0 <= j < i ==> procs[j] == OrphanChildren(old(procs), parent)[j]
        invariant forall j :: i <= j < |procs| ==> procs[j] == old(procs)[j]
      {
        if procs[i].parent == parent {
          procs := procs[i := procs[i].(parent := 0)];
        }
      }
      assert procs == OrphanChildren(old(procs), parent);
    }

    method Notify(child: nat)
      requires Valid() && child < |procs|
      modifies this`procs
      ensures procs == NotifyChildExit(old(procs), old(procs)[child]) && Valid()
    {
      var parent, pid := procs[child].parent, procs[child].pid;
      if parent <= 0 {
        return;
      }
      for i := 0 to |procs|
        invariant |procs| == |old(procs)|
        invariant forall j :: 0 <= j < i ==> procs[j] == NotifyChildExit(old(procs), old(procs)[child])[j]
        invariant forall j :: i <= j < |procs| ==> procs[j] == old(procs)[j]
      {
        if procs[i].pid != parent || procs[i].state != Waiting {
          continue;
        }
        if procs[i].reason != ChildExit {
          continue;
        }
        if procs[i].waitPid == -1 || procs[i].waitPid == pid {
          procs := procs[i := procs[i].(state := Runnable, reason := NoWait, waitPid := -1)];
        }
      }
      assert procs == NotifyChildExit(old(procs), old(procs)[child]);
    }

    // ----- scheduling -----

    /** The scan of `yield`. */
    method NextReady() returns (next: Option<nat>)
      requires Shaped()
      ensures next == Pick(procs, procs[cur].pid, 0)
    {
      var n := |procs|;
      var i := 0;
      while i < n
        invariant i <= n && Pick(procs, procs[cur].pid, 0) == Pick(procs, procs[cur].pid, i)
      {
        var slot := (procs[cur].pid + i) % n;
        if procs[slot].state == Runnable && procs[slot].pid > 0 {
          return Some(slot);
        }
        i := i + 1;
      }
      return None;
    }

    /** One pass of the loop in `yield`: choose, and switch if somebody can run. */
    method Schedule()
      requires Settling()
      modifies this`cur, this`slices, this`needResched
      ensures Valid() && View() == Dispatch(old(View()))
      ensures forall i :: 0 <= i < |procs| && procs[i].state != Unused ==> slices[i] == NextSlice(old(cur), cur, old(slices), i)
    {
      hide Pick;
      if Dispatchable(procs[cur]) {
        CallerFirst(procs, cur);
      }
      var next := NextReady();
      if next.None? {
        return;
      }
      if next.value == cur {
        if slices[cur] == 0 {
          slices := slices[cur := TIME_SLICE];
        }
        needResched := false;
        return;
      }
      slices := slices[next.value := TIME_SLICE];
      needResched := false;
      cur := next.value;
    }

    /** The ticks of process `i` once `yield` has gone from slot `before` to slot `after`. */
    static function NextSlice(before: nat, after: nat, slices: seq<nat>, i: nat): nat
      requires i < |slices|
    {
      if i == after && (after != before || slices[i] == 0) then TIME_SLICE else slices[i]
    }

    method YieldCpu()
      requires Settling()
      modifies this`procs, this`slices, this`cur, this`needResched
      ensures Valid() && View() == Yield(old(View()))
      ensures forall i :: 0 <= i < |procs| && procs[i].state != Unused ==> slices[i] == NextSlice(old(cur), cur, old(slices), i)
    {
      hide Dispatch;
      ReapExitedProcesses();
      Schedule();
    }

    /** The blocking tail of a wait: note why, sleep, yield. */
    method Sleep(reason: Reason, waitPid: int)
      requires Valid() && procs[cur].state != Unused
      modifies this`procs, this`slices, this`cur, this`needResched
      ensures Valid() && View() == Block(old(View()), reason, waitPid)
    {
      procs := procs[cur := procs[cur].(reason := reason, waitPid := waitPid, state := Waiting)];
      YieldCpu();
    }

    // ----- system calls -----

    method PollConsoleInput(available: seq<byte>)
      requires Valid() && |ring.Contents()| <= ring.Capacity()
      modifies this`procs, ring, ring.buf
      ensures Valid() && View() == Poll(old(View()), available)
    {
      ring.Fill(available);
      if ring.count > 0 {
        WakeupInputWaiters();
      }
    }

    /** What `syscall_handle_exit` and `process_kill` do to the process in slot `t`. */
    method EndProcess(t: nat)
      requires Valid() && t < |procs| && procs[t].state != Unused
      modifies this`procs
      ensures Valid() && procs == End(old(procs), t)
    {
      Orphan(procs[t].pid);
      procs := procs[t := procs[t].(state := Exited, reason := NoWait, waitPid := -1)];
      Notify(t);
    }

    method SyscallExit() returns (out: Outcome)
      requires Calling()
      modifies this`procs, this`slices, this`cur, this`halted, this`needResched
      ensures Valid() && (View(), out) == ExitStep(old(View()))
    {
      hide End, Yield;
      if cur == init {
        procs := procs[cur := procs[cur].(state := Exited, reason := NoWait, waitPid := -1)];
        halted := true;
        return Shutdown;
      }
      EndProcess(cur);
      YieldCpu();
      return Suspended;
    }

    /** The slot-and-parent half of `syscall_handle_clone` and `process_fork`. */
    method SpawnChild() returns (out: Outcome)
      requires Valid() && !halted
      modifies this`procs, this`slices
      ensures Valid() && (View(), out) == SpawnStep(old(View()))
    {
      var parent := procs[cur].pid;
      ghost var reaped := Reap(procs);
      ReapExitedProcesses();
      var slot := FindFreeSlot();
      match slot
      case None => return Returned(-1);
      case Some(i) =>
        procs := procs[i := Proc(i, Runnable, NoWait, -1, 0, None)];
        procs := procs[i := procs[i].(parent := parent)];
        slices := slices[i := TIME_SLICE];
        assert procs == reaped[i := Spawned(i, parent)];
        return Returned(i);
    }

    /** The table half of `process_exec`, once the image is loaded. */
    method ResetForExec() returns (out: Outcome)
      requires Calling()
      modifies this`procs, this`slices
      ensures Valid() && (View(), out) == ExecStep(old(View()))
      ensures slices == old(slices)[cur := TIME_SLICE]
    {
      procs := procs[cur := procs[cur].(reason := NoWait, waitPid := -1)];
      slices := slices[cur := TIME_SLICE];
      return Returned(0);
    }

    /** The scan of `wait_for_child_exit`. */
    method FindChild(parent: int, target: int) returns (hasChild: bool, exited: Option<nat>)
      ensures exited == FirstExitedChild(procs, parent, target)
      ensures exited.None? ==> (hasChild <==> FirstChild(procs, parent, target).Some?)
    {
      hasChild := false;
      for i := 0 to |procs|
        invariant hasChild <==> exists j :: 0 <= j < i && ChildOf(procs[j], parent, target)
        invariant forall j :: 0 <= j < i ==> !(ChildOf(procs[j], parent, target) && procs[j].state == Exited)
      {
        if procs[i].state == Unused || procs[i].parent != parent {
          continue;
        }
        if target != -1 && procs[i].pid != target {
          continue;
        }
        hasChild := true;
        if procs[i].state == Exited {
          return hasChild, Some(i);
        }
      }
      return hasChild, None;
    }

    method SyscallWaitpid(target: int) returns (out: Outcome)
      requires Calling()
      modifies this`procs, this`slices, this`cur, this`needResched
      ensures Valid() && (View(), out) == WaitpidStep(old(View()), target)
    {
      hide Yield, FirstChild;
      var parent := procs[cur].pid;
      if target <= 0 && target != -1 {
        return Returned(-1);
      }
      if parent <= 0 {
        return Returned(-1);
      }
      var hasChild, exited := FindChild(parent, target);
      if exited.Some? {
        var pid := procs[exited.value].pid;
        RecycleSlot(exited.value);
        return Returned(pid);
      }
      if !hasChild {
        return Returned(-1);
      }
      Sleep(ChildExit, target);
      return Suspended;
    }

    /** The part of `process_kill` after its checks. */
    method KillLive(t: nat) returns (out: Outcome)
      requires Calling() && t < |procs| && procs[t].state != Unused
      modifies this`procs, this`slices, this`cur, this`needResched
      ensures Valid()
      ensures var s, ended := old(View()), End(old(procs), t);
        if t == old(cur) then View() == Yield(s.(procs := ended[t := ended[t].(parent := 0)])) && out == Suspended
        else View() == s.(procs := ended[t := RECYCLED]) && out == Returned(t)
    {
      hide End, Yield, Reap;
      var killed := procs[t].pid;
      EndProcess(t);
      ghost var ended := procs;
      procs := procs[t := procs[t].(parent := 0)];
      if t == cur {
        YieldCpu();
        return Suspended;
      }
      RecycleSlot(t);
      assert procs == ended[t := RECYCLED];
      return Returned(killed);
    }

    method SyscallKill(target: int) returns (out: Outcome)
      requires Calling()
      modifies this`procs, this`slices, this`cur, this`needResched
      ensures Valid() && (View(), out) == KillStep(old(View()), target)
    {
      hide End, Yield, First, Reap;
      if target <= 0 {
        return Returned(-1);
      }
      var found := FindProcessByPid(target);
      if found.None? || procs[found.value].state == Exited {
        return Returned(-2);
      }
      var t := found.value;
      if t == init {
        return Returned(-3);
      }
      out := KillLive(t);
    }

    method SyscallSend(dst: int, payload: word) returns (out: Outcome)
      requires Calling()
      modifies this`procs
      ensures Valid() && (View(), out) == SendStep(old(View()), dst, payload)
    {
      hide First, Reap, Pick;
      var sender := procs[cur].pid;
      if sender <= 0 {
        return Returned(-1);
      }
      var found := FindProcessByPid(dst);
      if found.None? || procs[found.value].state == Exited {
        return Returned(-1);
      }
      var d := found.value;
      if procs[d].mail.Some? {
        return Returned(-2);
      }
      procs := procs[d := procs[d].(mail := Some(Message(sender, payload)))];
      if procs[d].state == Waiting && procs[d].reason == IpcRecv {
        procs := procs[d := procs[d].(state := Runnable, reason := NoWait, waitPid := -1)];
      }
      assert procs == SendStep(old(View()), dst, payload).0.procs;
      return Returned(0);
    }

    method SyscallRecv() returns (out: Outcome)
      requires Calling()
      modifies this`procs, this`slices, this`cur, this`needResched
      ensures Valid() && (View(), out) == RecvStep(old(View()))
    {
      hide First, Yield;
      if procs[cur].pid <= 0 {
        return Returned(-1);
      }
      var found := FindProcessByPid(procs[cur].pid);
      if found.None? {
        return Returned(-1);
      }
      var self := found.value;
      if procs[self].mail.None? {
        procs := procs[self := procs[self].(reason := IpcRecv, waitPid := -1, state := Waiting)];
        YieldCpu();
        return Suspended;
      }
      var message := procs[self].mail.value;
      procs := procs[self := procs[self].(mail := None)];
      return GotMessage(message);
    }

    method SyscallGetchar(available: seq<byte>) returns (out: Outcome)
      requires Calling()
      modifies this`procs, this`slices, this`cur, this`needResched, ring, ring.buf
      ensures Valid() && (View(), out) == GetcharStep(old(View()), available)
    {
      hide Block, Yield;
      var c := ring.Pop();
      if c.None? {
        PollConsoleInput(available);
        c := ring.Pop();
        if c.None? {
          Sleep(ConsoleInput, procs[cur].waitPid);
          return Suspended;
        }
      }
      procs := procs[cur := procs[cur].(reason := NoWait)];
      return GotChar(c.value);
    }

    /** `scheduler_on_timer_tick`: the running process pays a tick; its last one makes a reschedule due. */
    method SchedulerOnTimerTick()
      requires Valid()
      modifies this`slices, this`needResched
      ensures Settling() && View() == old(View())
      ensures slices == if Running(View()) then old(slices)[cur := old(slices)[cur] - 1] else old(slices)
      ensures needResched <==> Running(View()) && old(slices)[cur] == 1
    {
      if procs[cur].state != Runnable || procs[cur].pid <= 0 {
        return;
      }
      if slices[cur] > 0 {
        slices := slices[cur := slices[cur] - 1];
      }
      if slices[cur] == 0 {
        needResched := true;
      }
    }

    /**
     The timer case of `handle_trap`, in user code or inside `yield`'s wait loop.
     A reschedule is due exactly when the process that runs, or is woken by the
     input, has one tick left.
     */
    method TimerInterrupt(available: seq<byte>)
      requires Valid() && !halted && |ring.Contents()| <= ring.Capacity()
      modifies this`procs, this`slices, this`cur, this`needResched, ring, ring.buf
      ensures Valid()
      ensures var polled := Poll(old(View()), available);
        var due := Running(polled) && old(slices)[old(cur)] == 1;
        && View() == TickStep(old(View()), available, due).0
        && forall i :: 0 <= i < |procs| && procs[i].state != Unused ==>
             slices[i] == if i == old(cur) && Running(polled) then (if due then TIME_SLICE else old(slices)[i] - 1)
                          else if i == cur && cur != old(cur) then TIME_SLICE
                          else old(slices)[i]
    {
      hide Poll, Pick;
      var running := procs[cur].state == Runnable && procs[cur].pid > 0;
      PollConsoleInput(available);
      SchedulerOnTimerTick();
      if needResched {
        YieldCpu();
      } else if !running {
        Schedule();
      }
    }
  }
}
