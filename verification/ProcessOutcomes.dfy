/**
 What each call of the process protocol does, field by field: its result in every
 case, what becomes of every slot, and what two calls in a row do.
 */
module ProcessOutcomes {
  import opened CTypes
  import opened ProcessModel
  import opened ProcessInvariant
  import opened ProcessRuns

  // ----- what can become of a slot -----

  /** Nobody's slot: no pid, no links, no mail. */
  predicate Vacant(q: Proc) {
    q.state == Unused && q.pid == 0 && q.parent == 0 && q.reason == NoWait && q.waitPid == -1 && q.mail.None?
  }

  predicate Orphaned(p: Proc) {
    p.state == Exited && p.parent == 0
  }

  /** `yield` and the spawning calls free the slots of ended processes that nobody can wait for. */
  predicate Swept(p: Proc, q: Proc) {
    if Orphaned(p) then Vacant(q) else q == p
  }

  /** Ready to run again, and otherwise the same process. */
  predicate Awake(p: Proc, q: Proc) {
    q.state == Runnable && q.reason == NoWait && q.waitPid == -1 && q.pid == p.pid && q.parent == p.parent && q.mail == p.mail
  }

  /** Asleep for `reason`, and otherwise the same process. */
  predicate Asleep(p: Proc, q: Proc, reason: Reason, waitPid: int) {
    q == p.(state := Waiting, reason := reason, waitPid := waitPid)
  }

  /** The slot sleeps until process `e`, whose parent is `parent`, ends. */
  predicate AwaitsEnd(p: Proc, e: nat, parent: int) {
    parent > 0 && p.pid == parent && p.state == Waiting && p.reason == ChildExit && (p.waitPid == -1 || p.waitPid == e)
  }

  /** What the end of process `e` does to another slot: its children lose their parent, its waiting parent wakes. */
  predicate Bereaved(p: Proc, q: Proc, e: nat, parent: int) {
    && q.pid == p.pid && q.mail == p.mail && q.parent == (if p.parent == e then 0 else p.parent)
    && if AwaitsEnd(p, e, parent) then q.state == Runnable && q.reason == NoWait && q.waitPid == -1
       else q.state == p.state && q.reason == p.reason && q.waitPid == p.waitPid
  }

  /** The same, and then swept: ended children of `e` go with it. */
  predicate BereavedSwept(p: Proc, q: Proc, e: nat, parent: int) {
    if p.state == Exited && (p.parent == 0 || p.parent == e) then Vacant(q) else Bereaved(p, q, e, parent)
  }

  /** Nothing but slots changed. */
  predicate SameRest(s: Sys, t: Sys) {
    t.cur == s.cur && t.init == s.init && t.ring == s.ring && t.capacity == s.capacity && t.halted == s.halted && |t.procs| == |s.procs|
  }

  predicate PidsBounded(ps: Procs) {
    forall i :: 0 <= i < |ps| ==> 0 <= ps[i].pid < |ps|
  }

  lemma InvBounds(s: Sys)
    requires Inv(s) && !s.halted
    ensures PidsBounded(s.procs)
  {
  }

  predicate CanRun(p: Proc) {
    p.state == Runnable && p.pid > 0
  }

  /** `from` has given the CPU up: it is with the next process that can run, cyclically, or nobody can. */
  predicate HandedOver(t: Sys, from: nat)
    requires from < |t.procs| && t.cur < |t.procs|
  {
    var n, origin := |t.procs|, t.procs[from].pid;
    if forall i :: 0 <= i < n ==> !CanRun(t.procs[i]) then t.cur == from
    else
      && 0 <= origin < n && CanRun(t.procs[t.cur])
      && forall i :: 0 <= i < n && CanRun(t.procs[i]) ==> Distance(n, origin, t.cur) <= Distance(n, origin, i)
  }

  // ----- clone and fork -----

  predicate Free(p: Proc) {
    p.state == Unused || Orphaned(p)
  }

  /**
   A spawn takes the lowest slot that is free or can be freed, and fails exactly if
   there is none; the child is ready, without mail, and linked to the caller.
   */
  lemma SpawnOutcome(s: Sys, op: Op)
    requires Inv(s) && !s.halted && Running(s) && (op == Fork || op == Clone(true))
    ensures var (t, out) := Step(s, op);
      && SameRest(s, t) && out.Returned? && -1 <= out.value < |s.procs|
      && (out.value == -1 <==> forall i :: 0 <= i < |s.procs| ==> !Free(s.procs[i]))
      && (forall i: nat :: out.value == i <==> i < |s.procs| && Free(s.procs[i]) && forall c :: 0 <= c < i ==> !Free(s.procs[c]))
      && (forall i: nat :: i < |s.procs| && out.value == i ==> t.procs[i] == Proc(i, Runnable, NoWait, -1, s.cur, None))
      && (forall i: nat :: i < |s.procs| && out.value != i ==> Swept(s.procs[i], t.procs[i]))
  {
    hide TableOk, InputWaitsOk, PidsOk;
    InvIsSane(s);
    RunningPid(s);
    var reaped := Reap(s.procs);
    assert forall i :: 0 <= i < |s.procs| ==> (reaped[i].state == Unused <==> Free(s.procs[i]));
  }

  /** A clone of an unknown application fails and changes nothing. */
  lemma CloneUnknown(s: Sys)
    requires Inv(s) && !s.halted && Running(s)
    ensures Step(s, Clone(false)) == (s, Returned(-1))
  {
  }

  /** The caller can wait for its new child at once: it sleeps until the child ends. */
  lemma SpawnThenWait(s: Sys, op: Op)
    requires Inv(s) && !s.halted && Running(s) && (op == Fork || op == Clone(true)) && Step(s, op).1 != Returned(-1)
    ensures var (t, out) := Step(s, op);
      Running(t) && Step(t, Waitpid(out.value)).1 == Suspended
  {
    hide Step, TableOk, InputWaitsOk;
    SpawnOutcome(s, op);
    StepKeeps(s, op);
    var (t, i) := (Step(s, op).0, Step(s, op).1.value);
    InvIsSane(s);
    RunningPid(s);
    IdleRuns(s);
    assert i > 0 && !Free(s.procs[s.cur]);
    CanWaitFor(t, i);
  }

  lemma IdleRuns(s: Sys)
    requires Inv(s) && !s.halted
    ensures |s.procs| > 0 && s.procs[0].state == Runnable
  {
  }

  lemma CanWaitFor(s: Sys, i: nat)
    requires Inv(s) && !s.halted && Running(s) && 0 < i < |s.procs|
    requires s.procs[i].pid == i && s.procs[i].state == Runnable && s.procs[i].parent == s.cur
    ensures Step(s, Waitpid(i)).1 == Suspended
  {
    hide Step, TableOk;
    InvIsSane(s);
    RunningPid(s);
    WaitpidOutcome(s, i);
    assert AskedFor(s.procs[i], s.cur, i);
  }

  /** And once it has ended, it collects it. */
  lemma CollectsEnded(s: Sys, i: nat)
    requires Inv(s) && !s.halted && Running(s) && Zombie(s, i, s.cur)
    ensures Step(s, Waitpid(i)).1 == Returned(i)
  {
    hide Step, TableOk;
    InvIsSane(s);
    RunningPid(s);
    WaitpidOutcome(s, i);
    IdleRuns(s);
    assert AskedFor(s.procs[i], s.cur, i);
    assert forall c :: 0 <= c < i ==> !AskedFor(s.procs[c], s.cur, i);
  }

  // ----- waitpid -----

  /** The slot is in use by a child of `parent` that the caller asked for; -1 asks for any. */
  predicate AskedFor(p: Proc, parent: nat, target: int) {
    p.state != Unused && p.parent == parent && (target == -1 || p.pid == target)
  }

  /**
   Waitpid collects the lowest ended child asked for, fails exactly if there is no
   such child or the question is malformed, and sleeps otherwise.
   */
  lemma WaitpidOutcome(s: Sys, target: int)
    requires Inv(s) && !s.halted && Running(s)
    ensures var (t, out) := Step(s, Waitpid(target));
      var legal := target > 0 || target == -1;
      && (out == Returned(-1) <==> !legal || forall c :: 0 <= c < |s.procs| ==> !AskedFor(s.procs[c], s.cur, target))
      && (forall i: nat :: out == Returned(i) <==>
            && legal && i < |s.procs| && AskedFor(s.procs[i], s.cur, target) && s.procs[i].state == Exited
            && forall c :: 0 <= c < i && AskedFor(s.procs[c], s.cur, target) ==> s.procs[c].state != Exited)
      && (out == Suspended <==>
            && legal && (exists c :: 0 <= c < |s.procs| && AskedFor(s.procs[c], s.cur, target))
            && forall c :: 0 <= c < |s.procs| && AskedFor(s.procs[c], s.cur, target) ==> s.procs[c].state != Exited)
  {
    hide Yield, TableOk, PidsOk, InputWaitsOk;
    InvIsSane(s);
    RunningPid(s);
  }

  /** What a waitpid changes: nothing if it fails, one slot if it collects, and the caller if it sleeps. */
  lemma WaitpidChanges(s: Sys, target: int)
    requires Inv(s) && !s.halted && Running(s)
    ensures var (t, out) := Step(s, Waitpid(target));
      && (out == Returned(-1) ==> t == s)
      && (forall i: nat :: i < |s.procs| && out == Returned(i) ==>
            SameRest(s, t) && Vacant(t.procs[i]) && forall j :: 0 <= j < |s.procs| && j != i ==> t.procs[j] == s.procs[j])
      && (out == Suspended ==>
            && t.ring == s.ring && !t.halted && HandedOver(t, s.cur) && Asleep(s.procs[s.cur], t.procs[s.cur], ChildExit, target)
            && forall j :: 0 <= j < |s.procs| && j != s.cur ==> Swept(s.procs[j], t.procs[j]))
  {
    hide Yield, TableOk, InputWaitsOk;
    InvBounds(s);
    SleepYield(s, ChildExit, target);
    if FirstExitedChild(s.procs, s.procs[s.cur].pid, target).Some? {
      InvIsSane(s);
    }
  }

  lemma YieldRest(s: Sys)
    requires WellFormed(s)
    ensures var t := Yield(s); t.ring == s.ring && t.halted == s.halted && t.init == s.init && t.capacity == s.capacity
  {
  }

  lemma DispatchHands(s: Sys)
    requires WellFormed(s) && PidsBounded(s.procs)
    ensures HandedOver(Dispatch(s), s.cur)
  {
    hide Pick, Distance;
    var ps := s.procs;
    forall i: nat | i < |ps| && CanRun(ps[i])
      ensures Pick(ps, ps[s.cur].pid, 0).Some?
      ensures Distance(|ps|, ps[s.cur].pid, Pick(ps, ps[s.cur].pid, 0).value) <= Distance(|ps|, ps[s.cur].pid, i)
    {
      PickIsFirst(ps, ps[s.cur].pid, 0, i);
    }
  }

  lemma YieldHands(s: Sys)
    requires WellFormed(s) && PidsBounded(s.procs)
    ensures HandedOver(Yield(s), s.cur)
  {
    hide Dispatch, HandedOver;
    DispatchHands(s.(procs := Reap(s.procs)));
  }

  // ----- the end of a process -----

  /** What becomes of slot `j` when `e` ends and the caller then yields. */
  lemma EndYieldAt(s: Sys, e: nat, ended: Procs, j: nat)
    requires Inv(s) && !s.halted && 0 < e < |s.procs| && Live(s.procs[e]) && j < |s.procs| && |ended| == |s.procs|
    requires j != e ==> ended[j] == End(s.procs, e)[j]
    requires forall i :: 0 <= i < |ended| ==> ended[i].pid >= 0
    ensures j != e ==> Bereaved(s.procs[j], End(s.procs, e)[j], e, s.procs[e].parent)
    ensures var q := Yield(s.(procs := ended)).procs[j];
      if j != e then BereavedSwept(s.procs[j], q, e, s.procs[e].parent)
      else Swept(ended[j], q)
    ensures End(s.procs, e)[e] == s.procs[e].(state := Exited, reason := NoWait, waitPid := -1)
  {
    hide Yield, End, TableOk, InputWaitsOk;
    InvIsSane(s);
    EndAt(s.procs, e, j);
    EndAt(s.procs, e, e);
    YieldAt(s.(procs := ended), j);
  }

  /**
   An exit never returns to its caller, which becomes a zombie of its parent, or is
   freed if it has none; that of init shuts the kernel down.
   */
  lemma ExitOutcome(s: Sys)
    requires Inv(s) && !s.halted && Running(s)
    ensures var (t, out) := Step(s, Exit);
      var p := s.procs[s.cur];
      if s.cur == s.init then out == Shutdown && t.halted
      else
        && out == Suspended && !t.halted && t.ring == s.ring && HandedOver(t, s.cur)
        && (if p.parent > 0 then t.procs[s.cur] == p.(state := Exited, reason := NoWait, waitPid := -1) else Vacant(t.procs[s.cur]))
        && forall j :: 0 <= j < |s.procs| && j != s.cur ==> BereavedSwept(s.procs[j], t.procs[j], s.cur, p.parent)
  {
    hide Yield, End, TableOk, InputWaitsOk, HandedOver;
    InvIsSane(s);
    InvBounds(s);
    RunningPid(s);
    if s.cur != s.init {
      var ended := End(s.procs, s.cur);
      forall j: nat | j < |s.procs|
        ensures j != s.cur ==> BereavedSwept(s.procs[j], Yield(s.(procs := ended)).procs[j], s.cur, s.procs[s.cur].parent)
      {
        EndYieldAt(s, s.cur, ended, j);
      }
      EndYieldAt(s, s.cur, ended, s.cur);
      YieldRest(s.(procs := ended));
      YieldHands(s.(procs := ended));
      ParentPositive(s, s.cur);
    }
  }

  lemma ParentPositive(s: Sys, i: nat)
    requires Inv(s) && !s.halted && i < |s.procs|
    ensures s.procs[i].parent >= 0
  {
  }

  // ----- kill -----

  /**
   A kill is refused with -1 for a bad pid, -2 if no such process lives, -3 for
   init, and then changes nothing.  Another process is gone at once: its slot is
   free, its children have no parent, its waiting parent wakes.  Oneself is gone
   when the kernel yields, and nothing is returned.
   */
  lemma KillOutcome(s: Sys, target: int)
    requires Inv(s) && !s.halted && Running(s)
    ensures var (t, out) := Step(s, Kill(target));
      var alive := 0 < target < |s.procs| && (s.procs[target].state == Runnable || s.procs[target].state == Waiting);
      && (out == Returned(-1) <==> target <= 0)
      && (out == Returned(-2) <==> target > 0 && !alive)
      && (out == Returned(-3) <==> target == s.init)
      && (target <= 0 || !alive || target == s.init ==> t == s)
      && (alive && target != s.init && target != s.cur ==>
            && out == Returned(target) && SameRest(s, t) && Vacant(t.procs[target])
            && forall j :: 0 <= j < |s.procs| && j != target ==> Bereaved(s.procs[j], t.procs[j], target, s.procs[target].parent))
      && (target == s.cur && target != s.init ==>
            && out == Suspended && !t.halted && t.ring == s.ring && HandedOver(t, s.cur) && Vacant(t.procs[s.cur])
            && forall j :: 0 <= j < |s.procs| && j != s.cur ==> BereavedSwept(s.procs[j], t.procs[j], s.cur, s.procs[s.cur].parent))
  {
    hide Step, TableOk, InputWaitsOk, HandedOver, Bereaved, BereavedSwept, Vacant;
    InitLives(s);
    RunningPid(s) by { InvIsSane(s); }
    if 0 < target < |s.procs| && Live(s.procs[target]) && target != s.init {
      if target == s.cur {
        KillSelf(s);
      } else {
        KillOther(s, target);
      }
    } else {
      KillRefused(s, target);
    }
  }

  lemma KillRefused(s: Sys, target: int)
    requires Inv(s) && !s.halted && Running(s)
    requires !(0 < target < |s.procs| && Live(s.procs[target]) && target != s.init)
    ensures Step(s, Kill(target)) ==
      (s, Returned(if target <= 0 then -1 else if target == s.init then -3 else -2))
  {
    hide Yield, End, TableOk, InputWaitsOk;
    InitLives(s);
    FindByPidIsSlot(s.procs, target);
  }

  lemma KillOther(s: Sys, target: nat)
    requires Inv(s) && !s.halted && Running(s)
    requires 0 < target < |s.procs| && Live(s.procs[target]) && target != s.init && target != s.cur
    ensures var (t, out) := Step(s, Kill(target));
      && out == Returned(target) && SameRest(s, t) && Vacant(t.procs[target])
      && forall j :: 0 <= j < |s.procs| && j != target ==> Bereaved(s.procs[j], t.procs[j], target, s.procs[target].parent)
  {
    hide Yield, End, TableOk, InputWaitsOk, Bereaved, BereavedSwept, HandedOver;
    InitLives(s);
    FindByPidIsSlot(s.procs, target);
    var ended := End(s.procs, target);
    forall j: nat | j < |s.procs| && j != target ensures Bereaved(s.procs[j], ended[j], target, s.procs[target].parent) {
      EndYieldAt(s, target, ended, j);
    }
  }

  lemma KillSelf(s: Sys)
    requires Inv(s) && !s.halted && Running(s) && s.cur != s.init
    ensures var (t, out) := Step(s, Kill(s.cur));
      && out == Suspended && !t.halted && t.ring == s.ring && HandedOver(t, s.cur) && Vacant(t.procs[s.cur])
      && forall j :: 0 <= j < |s.procs| && j != s.cur ==> BereavedSwept(s.procs[j], t.procs[j], s.cur, s.procs[s.cur].parent)
  {
    hide Yield, End, TableOk, InputWaitsOk, Bereaved, BereavedSwept, HandedOver;
    InitLives(s);
    InvBounds(s);
    RunningPid(s) by { InvIsSane(s); }
    FindByPidIsSlot(s.procs, s.cur);
    var ended := End(s.procs, s.cur);
    var cut := ended[s.cur := ended[s.cur].(parent := 0)];
    forall j: nat | j < |s.procs| && j != s.cur
      ensures BereavedSwept(s.procs[j], Yield(s.(procs := cut)).procs[j], s.cur, s.procs[s.cur].parent)
    {
      EndYieldAt(s, s.cur, cut, j);
    }
    EndYieldAt(s, s.cur, cut, s.cur);
    YieldRest(s.(procs := cut));
    YieldHands(s.(procs := cut));
  }

  lemma InitLives(s: Sys)
    requires Inv(s) && !s.halted
    ensures 0 < s.init < |s.procs| && Live(s.procs[s.init]) && PidsOk(s.procs)
  {
  }

  // ----- messages -----

  /**
   A send is refused with -1 if the receiver does not live and with -2 if its
   mailbox is full, and then changes nothing; otherwise the receiver has the
   message, with its sender, and is ready if it waited for one.
   */
  lemma SendOutcome(s: Sys, dst: int, payload: word)
    requires Inv(s) && !s.halted && Running(s)
    ensures var (t, out) := Step(s, Send(dst, payload));
      var alive := 0 < dst < |s.procs| && (s.procs[dst].state == Runnable || s.procs[dst].state == Waiting);
      && (out == Returned(-1) <==> !alive)
      && (out == Returned(-2) <==> alive && s.procs[dst].mail.Some?)
      && (out == Returned(0) <==> alive && s.procs[dst].mail.None?)
      && (out != Returned(0) ==> t == s)
      && (out == Returned(0) ==>
            && SameRest(s, t)
            && (var p := s.procs[dst].(mail := Some(Message(s.cur, payload)));
                if p.state == Waiting && p.reason == IpcRecv then Awake(p, t.procs[dst]) else t.procs[dst] == p)
            && forall j :: 0 <= j < |s.procs| && j != dst ==> t.procs[j] == s.procs[j])
  {
    hide TableOk, InputWaitsOk;
    InvIsSane(s);
    RunningPid(s);
    FindByPidIsSlot(s.procs, dst);
  }

  /** A receive delivers the pending message and empties the mailbox, or sleeps if there is none; it never fails. */
  lemma RecvOutcome(s: Sys)
    requires Inv(s) && !s.halted && Running(s)
    ensures var (t, out) := Step(s, Recv);
      match s.procs[s.cur].mail
      case Some(m) =>
        && out == GotMessage(m) && SameRest(s, t) && t.procs[s.cur] == s.procs[s.cur].(mail := None)
        && forall j :: 0 <= j < |s.procs| && j != s.cur ==> t.procs[j] == s.procs[j]
      case None =>
        && out == Suspended && t.ring == s.ring && !t.halted && HandedOver(t, s.cur)
        && Asleep(s.procs[s.cur], t.procs[s.cur], IpcRecv, -1)
        && forall j :: 0 <= j < |s.procs| && j != s.cur ==> Swept(s.procs[j], t.procs[j])
  {
    hide Yield, TableOk, InputWaitsOk;
    InvIsSane(s);
    RunningPid(s);
    FindByPidIsSlot(s.procs, s.cur);
    InvBounds(s);
    SleepYield(s, IpcRecv, -1);
  }

  /** Falling asleep sweeps the table and changes nobody else. */
  lemma SleepYield(s: Sys, reason: Reason, waitPid: int)
    requires WellFormed(s) && PidsBounded(s.procs)
    ensures var t := Yield(s.(procs := s.procs[s.cur := s.procs[s.cur].(state := Waiting, reason := reason, waitPid := waitPid)]));
      && t.ring == s.ring && t.halted == s.halted && HandedOver(t, s.cur)
      && Asleep(s.procs[s.cur], t.procs[s.cur], reason, waitPid)
      && forall j :: 0 <= j < |s.procs| && j != s.cur ==> Swept(s.procs[j], t.procs[j])
  {
    hide Yield;
    var u := s.(procs := s.procs[s.cur := s.procs[s.cur].(state := Waiting, reason := reason, waitPid := waitPid)]);
    YieldRest(u);
    YieldHands(u);
    forall j: nat | j < |s.procs| ensures Yield(u).procs[j] == if Reapable(u.procs[j]) then RECYCLED else u.procs[j] {
      YieldAt(u, j);
    }
  }

  /** A message sent is what its receiver gets next: sending to oneself and receiving hands the payload over. */
  lemma SendThenRecv(s: Sys, payload: word)
    requires Inv(s) && !s.halted && Running(s) && s.procs[s.cur].mail.None?
    ensures var t := Step(s, Send(s.cur, payload)).0;
      Running(t) && t.cur == s.cur && Step(t, Recv).1 == GotMessage(Message(s.cur, payload))
  {
    hide Step, TableOk;
    SendOutcome(s, s.cur, payload);
    StepKeeps(s, Send(s.cur, payload));
    RunningPid(s) by { InvIsSane(s); }
    RecvOutcome(Step(s, Send(s.cur, payload)).0);
  }

  // ----- the console -----

  /** What a call takes from the console: as much of `available` as the ring has room for. */
  function Taken(s: Sys, op: Op): (taken: seq<byte>)
    requires WellFormed(s) && |s.ring| <= s.capacity
  {
    var room := s.capacity - |s.ring|;
    if !Enabled(s, op) then []
    else match op
      case Getchar(available) => if s.ring == [] then (if |available| <= room then available else available[..room]) else []
      case Tick(available, _) => if |available| <= room then available else available[..room]
      case _ => []
  }

  /** A console waiter is ready once a character is there, and nobody else is touched. */
  predicate InputReaches(p: Proc, q: Proc, arrived: bool) {
    if arrived && p.state == Waiting && p.reason == ConsoleInput then Awake(p, q) else q == p
  }

  /**
   A getchar delivers the oldest character there is, in the ring or taken now, and
   sleeps exactly if there is none.
   */
  lemma GetcharOutcome(s: Sys, available: seq<byte>)
    requires Inv(s) && !s.halted && Running(s)
    ensures var (t, out) := Step(s, Getchar(available));
      var there := s.ring + Taken(s, Getchar(available));
      if there != [] then
        && out == GotChar(there[0]) && t.ring == there[1..] && t.cur == s.cur && !t.halted
        && t.procs[s.cur] == s.procs[s.cur]
        && forall j :: 0 <= j < |s.procs| && j != s.cur ==> InputReaches(s.procs[j], t.procs[j], s.ring == [])
      else
        && out == Suspended && t.ring == [] && !t.halted && HandedOver(t, s.cur)
        && Asleep(s.procs[s.cur], t.procs[s.cur], ConsoleInput, s.procs[s.cur].waitPid)
        && forall j :: 0 <= j < |s.procs| && j != s.cur ==> Swept(s.procs[j], t.procs[j])
  {
    hide Yield, Forest, ParentsLive, ChildWaitsOk;
    var polled := Poll(s, available);
    InvBounds(s);
    SleepYield(polled, ConsoleInput, s.procs[s.cur].waitPid);
  }

  /** A timer interrupt takes what there is room for and wakes whoever waits for it. */
  lemma TickOutcome(s: Sys, available: seq<byte>, resched: bool)
    requires Inv(s) && !s.halted
    ensures var t := Step(s, Tick(available, resched)).0;
      && t.ring == s.ring + Taken(s, Tick(available, resched)) && !t.halted && HandedOver(t, s.cur)
      && forall j :: 0 <= j < |s.procs| ==>
           if resched && Orphaned(s.procs[j]) then Vacant(t.procs[j])
           else InputReaches(s.procs[j], t.procs[j], t.ring != [])
  {
    hide Yield, Dispatch, TableOk, InputWaitsOk, HandedOver;
    InvBounds(s);
    var polled := Poll(s, available);
    YieldRest(polled);
    DispatchRest(polled);
    YieldHands(polled);
    DispatchHands(polled);
    if Running(s) {
      RunningPid(s) by { InvIsSane(s); }
      StaysHanded(polled);
    }
    forall j: nat | j < |s.procs| ensures Yield(polled).procs[j] == if Reapable(polled.procs[j]) then RECYCLED else polled.procs[j] {
      YieldAt(polled, j);
    }
  }

  /** Who can run keeps the CPU. */
  lemma StaysHanded(s: Sys)
    requires WellFormed(s) && s.procs[s.cur].pid == s.cur && CanRun(s.procs[s.cur])
    ensures HandedOver(s, s.cur)
  {
  }

  lemma DispatchRest(s: Sys)
    requires WellFormed(s)
    ensures Dispatch(s) == s.(cur := Dispatch(s).cur)
  {
  }

  function Chars(out: Outcome): seq<byte> {
    if out.GotChar? then [out.c] else []
  }

  /** Every character taken by a step is in the ring or delivered. */
  lemma ConsoleStep(s: Sys, op: Op)
    requires Inv(s)
    ensures var (t, out) := Step(s, op);
      Chars(out) + t.ring == s.ring + Taken(s, op)
  {
    hide ExitStep, SpawnStep, ExecStep, WaitpidStep, KillStep, SendStep, RecvStep, GetcharStep, TickStep, TableOk, InputWaitsOk;
    if Enabled(s, op) {
      match op
      case Getchar(available) => GetcharOutcome(s, available);
      case Tick(available, resched) => TickOutcome(s, available, resched); TickStepSuspends(s, available, resched);
      case _ => RingUntouched(s, op);
    }
  }

  lemma TickStepSuspends(s: Sys, available: seq<byte>, resched: bool)
    requires WellFormed(s)
    ensures TickStep(s, available, resched).1 == Suspended
  {
  }

  /** Only getchar and the timer touch the console. */
  lemma RingUntouched(s: Sys, op: Op)
    requires WellFormed(s) && Enabled(s, op) && !op.Getchar? && !op.Tick?
    ensures Step(s, op).0.ring == s.ring && !Step(s, op).1.GotChar?
  {
    hide Pick, Reap, End, FindByPid, FirstChild, FirstExitedChild, FreeSlot;
  }

  /** The characters that a run takes from the console, and those that it delivers, in order. */
  function AllTaken(s: Sys, ops: seq<Op>): seq<byte>
    requires Inv(s)
    decreases |ops|
  {
    if ops == [] then []
    else
      RunKeeps(s, Init(ops));
      AllTaken(s, Init(ops)) + Taken(Run(s, Init(ops)), Last(ops))
  }

  function AllDelivered(s: Sys, ops: seq<Op>): seq<byte>
    requires WellFormed(s)
    decreases |ops|
  {
    if ops == [] then [] else AllDelivered(s, Init(ops)) + Chars(Step(Run(s, Init(ops)), Last(ops)).1)
  }

  lemma {:induction false} RunKeeps(s: Sys, ops: seq<Op>)
    requires Inv(s)
    ensures Inv(Run(s, ops))
    decreases |ops|
  {
    hide Step, TableOk;
    if ops != [] {
      RunKeeps(s, Init(ops));
      StepKeeps(Run(s, Init(ops)), Last(ops));
    }
  }

  /**
   No character is lost, doubled or reordered: in every run the characters that
   processes got, followed by those in the ring, are those taken from the console.
   */
  lemma {:induction false} CharactersInOrder(s: Sys, ops: seq<Op>)
    requires Inv(s)
    ensures AllDelivered(s, ops) + Run(s, ops).ring == s.ring + AllTaken(s, ops)
    decreases |ops|
  {
    hide Step, TableOk, InputWaitsOk, Taken;
    if ops != [] {
      var before := Run(s, Init(ops));
      CharactersInOrder(s, Init(ops));
      RunKeeps(s, Init(ops));
      ConsoleStep(before, Last(ops));
      var taken, got := Taken(before, Last(ops)), Chars(Step(before, Last(ops)).1);
      assert AllDelivered(s, Init(ops)) + got + Run(s, ops).ring
          == AllDelivered(s, Init(ops)) + (got + Run(s, ops).ring)
          == AllDelivered(s, Init(ops)) + before.ring + taken
          == s.ring + (AllTaken(s, Init(ops)) + taken);
    } else {
      assert [] + s.ring == s.ring + [];
    }
  }

  // ----- exec -----

  /** An exec that loads nothing fails and changes nothing; any other leaves the caller ready and touches nobody. */
  lemma ExecOutcome(s: Sys, loaded: bool)
    requires Inv(s) && !s.halted && Running(s)
    ensures var (t, out) := Step(s, Exec(loaded));
      if !loaded then t == s && out == Returned(-1)
      else
        && out == Returned(0) && SameRest(s, t) && Awake(s.procs[s.cur], t.procs[s.cur])
        && forall j :: 0 <= j < |s.procs| && j != s.cur ==> t.procs[j] == s.procs[j]
  {
    hide TableOk, InputWaitsOk;
  }
}
