/**
 The process table as a transition system.  The kernel runs with interrupts off,
 so each stretch of a system call between two calls of `yield` is one atomic
 step.  Every function here is the meaning of one routine of the kernel; the
 class in ProcessKernel.dfy computes them with the kernel's own loops.
 */
module ProcessModel {
  import opened CTypes

  datatype State = Unused | Runnable | Waiting | Exited
  datatype Reason = NoWait | ConsoleInput | ChildExit | IpcRecv
  datatype Message = Message(from: int, payload: word)

  /** The fields of `struct process` that the protocol reads and writes. */
  datatype Proc = Proc(pid: int, state: State, reason: Reason, waitPid: int, parent: int, mail: Option<Message>)

  type Procs = seq<Proc>

  const ANY_CHILD := -1

  /** What `recycle_process_slot` leaves behind. */
  const RECYCLED := Proc(0, Unused, NoWait, -1, 0, None)

  predicate Live(p: Proc) {
    p.state == Runnable || p.state == Waiting
  }

  function Wake(p: Proc): Proc {
    p.(state := Runnable, reason := NoWait, waitPid := -1)
  }

  // ----- scans over the table -----

  predicate Reapable(p: Proc) {
    p.state == Exited && p.parent == 0
  }

  function Reap(ps: Procs): (r: Procs)
    ensures |r| == |ps|
  {
    seq(|ps|, i requires 0 <= i < |ps| => if Reapable(ps[i]) then RECYCLED else ps[i])
  }

  predicate WaitsForInput(p: Proc) {
    p.state == Waiting && p.reason == ConsoleInput
  }

  function WakeInputWaiters(ps: Procs): (r: Procs)
    ensures |r| == |ps|
  {
    seq(|ps|, i requires 0 <= i < |ps| => if WaitsForInput(ps[i]) then Wake(ps[i]) else ps[i])
  }

  function OrphanChildren(ps: Procs, parent: int): (r: Procs)
    ensures |r| == |ps|
  {
    if parent <= 0 then ps
    else seq(|ps|, i requires 0 <= i < |ps| => if ps[i].parent == parent then ps[i].(parent := 0) else ps[i])
  }

  predicate WaitsForChild(p: Proc, parent: int, child: int) {
    p.pid == parent && p.state == Waiting && p.reason == ChildExit && (p.waitPid == ANY_CHILD || p.waitPid == child)
  }

  function NotifyChildExit(ps: Procs, child: Proc): (r: Procs)
    ensures |r| == |ps|
  {
    if child.parent <= 0 then
      ps
    else
      seq(|ps|, i requires 0 <= i < |ps| =>
        if WaitsForChild(ps[i], child.parent, child.pid) then Wake(ps[i]) else ps[i])
  }

  /** The first index at or after `k` whose slot satisfies `f`. */
  function First(ps: Procs, f: Proc -> bool, k: nat): (r: Option<nat>)
    requires k <= |ps|
    ensures r.Some? ==> k <= r.value < |ps| && f(ps[r.value]) && forall i :: k <= i < r.value ==> !f(ps[i])
    ensures r.None? ==> forall i :: k <= i < |ps| ==> !f(ps[i])
    decreases |ps| - k
  {
    if k == |ps| then None else if f(ps[k]) then Some(k) else First(ps, f, k + 1)
  }

  function FindByPid(ps: Procs, pid: int): Option<nat> {
    if pid <= 0 then None else First(ps, (p: Proc) => p.pid == pid && p.state != Unused, 0)
  }

  function FreeSlot(ps: Procs): Option<nat> {
    First(ps, (p: Proc) => p.state == Unused, 0)
  }

  predicate ChildOf(p: Proc, parent: int, target: int) {
    p.state != Unused && p.parent == parent && (target == ANY_CHILD || p.pid == target)
  }

  function FirstChild(ps: Procs, parent: int, target: int): Option<nat> {
    First(ps, (p: Proc) => ChildOf(p, parent, target), 0)
  }

  function FirstExitedChild(ps: Procs, parent: int, target: int): Option<nat> {
    First(ps, (p: Proc) => ChildOf(p, parent, target) && p.state == Exited, 0)
  }

  predicate Dispatchable(p: Proc) {
    p.state == Runnable && p.pid > 0
  }

  /** `yield`'s cyclic scan, from `origin + k` on. */
  function Pick(ps: Procs, origin: nat, k: nat): (r: Option<nat>)
    requires 0 < |ps| && k <= |ps|
    ensures r.Some? ==> r.value < |ps| && Dispatchable(ps[r.value])
    decreases |ps| - k
  {
    if k == |ps| then None
    else if Dispatchable(ps[(origin + k) % |ps|]) then Some((origin + k) % |ps|)
    else Pick(ps, origin, k + 1)
  }

  // ----- the whole system -----

  /** `cur` and `init` are the slots of `current_proc` and `init_proc`. */
  datatype Sys = Sys(procs: Procs, cur: nat, init: nat, ring: seq<byte>, capacity: nat, halted: bool)

  datatype Op =
    | Exit
    | Clone(known: bool)
    | Fork
    | Exec(loaded: bool)
    | Waitpid(target: int)
    | Kill(target: int)
    | Send(dst: int, payload: word)
    | Recv
    | Getchar(available: seq<byte>)
    | Tick(available: seq<byte>, resched: bool)

  /** How a step ends for the process that made it. */
  datatype Outcome =
    | Returned(value: int)
    | GotMessage(message: Message)
    | GotChar(c: byte)
    | Suspended
    | Shutdown

  predicate WellFormed(s: Sys) {
    s.cur < |s.procs| && s.init < |s.procs| && (forall i :: 0 <= i < |s.procs| ==> s.procs[i].pid >= 0)
  }

  predicate SameShape(s: Sys, t: Sys) {
    WellFormed(t) && |t.procs| == |s.procs| && t.init == s.init && t.capacity == s.capacity
  }

  /** The current process is executing user code (otherwise `yield` is waiting for an interrupt). */
  predicate Running(s: Sys)
    requires WellFormed(s)
  {
    Dispatchable(s.procs[s.cur])
  }

  function Dispatch(s: Sys): (r: Sys)
    requires WellFormed(s)
    ensures SameShape(s, r)
  {
    match Pick(s.procs, s.procs[s.cur].pid, 0)
    case None => s
    case Some(next) => s.(cur := next)
  }

  function Yield(s: Sys): (r: Sys)
    requires WellFormed(s)
    ensures SameShape(s, r)
  {
    Dispatch(s.(procs := Reap(s.procs)))
  }

  function Min(a: nat, b: nat): nat { if a <= b then a else b }

  /** `poll_console_input` with `available` characters waiting at the console. */
  function Poll(s: Sys, available: seq<byte>): (r: Sys)
    ensures WellFormed(s) ==> SameShape(s, r)
  {
    var room := if |s.ring| <= s.capacity then s.capacity - |s.ring| else 0;
    var ring := s.ring + available[..Min(room, |available|)];
    s.(ring := ring, procs := if |ring| > 0 then WakeInputWaiters(s.procs) else s.procs)
  }

  /** Ends slot `t`: its children are orphaned, it becomes a zombie, its parent is woken. */
  function End(ps: Procs, t: nat): (r: Procs)
    requires t < |ps|
    ensures |r| == |ps|
    ensures forall i :: 0 <= i < |ps| ==> r[i].pid == ps[i].pid
  {
    var orphaned := OrphanChildren(ps, ps[t].pid);
    var marked := orphaned[t := orphaned[t].(state := Exited, reason := NoWait, waitPid := -1)];
    NotifyChildExit(marked, marked[t])
  }

  function Spawned(slot: nat, parent: int): Proc {
    Proc(slot, Runnable, NoWait, -1, parent, None)
  }

  /** `create_process` / `alloc_proc_slot` followed by linking the child to its parent. */
  function Spawn(ps: Procs, parent: int): (r: (Procs, Option<nat>))
    ensures |r.0| == |ps|
  {
    var reaped := Reap(ps);
    match FreeSlot(reaped)
    case None => (reaped, None)
    case Some(i) => (reaped[i := Spawned(i, parent)], Some(i))
  }

  function Block(s: Sys, reason: Reason, waitPid: int): (r: Sys)
    requires WellFormed(s)
    ensures SameShape(s, r)
  {
    var p := s.procs[s.cur].(state := Waiting, reason := reason, waitPid := waitPid);
    Yield(s.(procs := s.procs[s.cur := p]))
  }

  function ExitStep(s: Sys): (r: (Sys, Outcome))
    requires WellFormed(s)
    ensures SameShape(s, r.0)
  {
    if s.cur == s.init then
      var p := s.procs[s.cur].(state := Exited, reason := NoWait, waitPid := -1);
      (s.(procs := s.procs[s.cur := p], halted := true), Shutdown)
    else
      (Yield(s.(procs := End(s.procs, s.cur))), Suspended)
  }

  function SpawnStep(s: Sys): (r: (Sys, Outcome))
    requires WellFormed(s)
    ensures SameShape(s, r.0)
  {
    var (ps, slot) := Spawn(s.procs, s.procs[s.cur].pid);
    (s.(procs := ps), Returned(if slot.Some? then slot.value else -1))
  }

  /** What `process_exec` changes of the caller's slot. */
  function ExecStep(s: Sys): (r: (Sys, Outcome))
    requires WellFormed(s)
    ensures SameShape(s, r.0)
  {
    (s.(procs := s.procs[s.cur := s.procs[s.cur].(reason := NoWait, waitPid := -1)]), Returned(0))
  }

  function WaitpidStep(s: Sys, target: int): (r: (Sys, Outcome))
    requires WellFormed(s)
    ensures SameShape(s, r.0)
  {
    var parent := s.procs[s.cur].pid;
    if (target <= 0 && target != -1) || parent <= 0 then (s, Returned(-1))
    else match FirstExitedChild(s.procs, parent, target)
      case Some(i) => (s.(procs := s.procs[i := RECYCLED]), Returned(s.procs[i].pid))
      case None =>
        if FirstChild(s.procs, parent, target).None? then (s, Returned(-1))
        else (Block(s, ChildExit, target), Suspended)
  }

  function KillStep(s: Sys, target: int): (r: (Sys, Outcome))
    requires WellFormed(s)
    ensures SameShape(s, r.0)
  {
    if target <= 0 then (s, Returned(-1))
    else match FindByPid(s.procs, target)
      case None => (s, Returned(-2))
      case Some(t) =>
        if s.procs[t].state == Exited then (s, Returned(-2))
        else if t == s.init then (s, Returned(-3))
        else
          var ended := End(s.procs, t);
          if t == s.cur then (Yield(s.(procs := ended[t := ended[t].(parent := 0)])), Suspended)
          else (s.(procs := ended[t := RECYCLED]), Returned(s.procs[t].pid))
  }

  function SendStep(s: Sys, dst: int, payload: word): (r: (Sys, Outcome))
    requires WellFormed(s)
    ensures SameShape(s, r.0)
  {
    if s.procs[s.cur].pid <= 0 then (s, Returned(-1))
    else match FindByPid(s.procs, dst)
      case None => (s, Returned(-1))
      case Some(d) =>
        var p := s.procs[d];
        if p.state == Exited then (s, Returned(-1))
        else if p.mail.Some? then (s, Returned(-2))
        else
          var q := p.(mail := Some(Message(s.procs[s.cur].pid, payload)));
          var r := if q.state == Waiting && q.reason == IpcRecv then Wake(q) else q;
          (s.(procs := s.procs[d := r]), Returned(0))
  }

  function RecvStep(s: Sys): (r: (Sys, Outcome))
    requires WellFormed(s)
    ensures SameShape(s, r.0)
  {
    if s.procs[s.cur].pid <= 0 then (s, Returned(-1))
    else match FindByPid(s.procs, s.procs[s.cur].pid)
      case None => (s, Returned(-1))
      case Some(i) =>
        var p := s.procs[i];
        if p.mail.Some? then (s.(procs := s.procs[i := p.(mail := None)]), GotMessage(p.mail.value))
        else
          var q := p.(state := Waiting, reason := IpcRecv, waitPid := -1);
          (Yield(s.(procs := s.procs[i := q])), Suspended)
  }

  function GetcharStep(s: Sys, available: seq<byte>): (r: (Sys, Outcome))
    requires WellFormed(s)
    ensures SameShape(s, r.0)
  {
    var t := if s.ring == [] then Poll(s, available) else s;
    if t.ring == [] then (Block(t, ConsoleInput, t.procs[t.cur].waitPid), Suspended)
    else
      var p := t.procs[t.cur].(reason := NoWait);
      (t.(ring := t.ring[1..], procs := t.procs[t.cur := p]), GotChar(t.ring[0]))
  }

  /** A timer interrupt, taken either in user code or inside `yield`'s wait loop. */
  function TickStep(s: Sys, available: seq<byte>, resched: bool): (r: (Sys, Outcome))
    requires WellFormed(s)
    ensures SameShape(s, r.0)
  {
    var t := Poll(s, available);
    if resched then (Yield(t), Suspended)
    else if Running(s) then (t, Suspended)
    else (Dispatch(t), Suspended)
  }

  predicate Enabled(s: Sys, op: Op)
    requires WellFormed(s)
  {
    !s.halted && (op.Tick? || Running(s))
  }

  function Step(s: Sys, op: Op): (r: (Sys, Outcome))
    requires WellFormed(s)
    ensures SameShape(s, r.0)
  {
    if !Enabled(s, op) then (s, Suspended)
    else match op
      case Exit => ExitStep(s)
      case Clone(known) => if known then SpawnStep(s) else (s, Returned(-1))
      case Fork => SpawnStep(s)
      case Exec(loaded) => if loaded then ExecStep(s) else (s, Returned(-1))
      case Waitpid(target) => WaitpidStep(s, target)
      case Kill(target) => KillStep(s, target)
      case Send(dst, payload) => SendStep(s, dst, payload)
      case Recv => RecvStep(s)
      case Getchar(available) => GetcharStep(s, available)
      case Tick(available, resched) => TickStep(s, available, resched)
  }

  /** The zeroed table before the first process. */
  function Blank(slots: nat): (ps: Procs)
    ensures |ps| == slots
  {
    seq(slots, _ => Proc(0, Unused, NoWait, 0, 0, None))
  }

  /** The table `kernel_bootstrap` and `kernel_main` leave: idle in slot 0, init in slot 1, then `yield`. */
  function Boot(slots: nat, capacity: nat): Sys
    requires slots >= 2
  {
    var idle := Spawn(Blank(slots), 0).0;
    var both := Spawn(idle, 0).0;
    Yield(Sys(both, 0, 1, [], capacity, false))
  }
}
