/** Safety of the process protocol: what holds in every reachable state. */
module ProcessInvariant {
  import opened CTypes
  import opened ProcessModel

  // ----- the invariant -----

  /** Slot numbers and pids agree; free slots are blank. */
  predicate PidsOk(ps: Procs) {
    forall i :: 0 <= i < |ps| ==>
      if ps[i].state == Unused then ps[i].pid == 0 && ps[i].parent == 0 && ps[i].mail.None? else ps[i].pid == i
  }

  /** A nonzero parent link names a process that has not ended. */
  predicate ParentsLive(ps: Procs) {
    forall i :: 0 <= i < |ps| ==>
      ps[i].parent == 0 || (0 < ps[i].parent < |ps| && Live(ps[ps[i].parent]))
  }

  ghost predicate Ranks(ps: Procs, rank: seq<nat>) {
    |rank| == |ps| && forall i :: 0 <= i < |ps| && 0 < ps[i].parent < |ps| ==> rank[ps[i].parent] < rank[i]
  }

  /** Parent links form a forest. */
  ghost predicate Forest(ps: Procs) {
    exists rank :: Ranks(ps, rank)
  }

  predicate WaitingHasReason(ps: Procs) {
    forall i :: 0 <= i < |ps| ==> (ps[i].state == Waiting <==> ps[i].reason != NoWait)
  }

  predicate LiveMatch(p: Proc, parent: int, target: int) {
    ChildOf(p, parent, target) && Live(p)
  }

  predicate HasLiveMatch(ps: Procs, parent: int, target: int) {
    exists c :: 0 <= c < |ps| && LiveMatch(ps[c], parent, target)
  }

  /** A process waiting for a child has one to wait for, and has not missed its exit. */
  predicate ChildWaitsOk(ps: Procs) {
    forall i :: 0 <= i < |ps| && ps[i].reason == ChildExit ==>
      && HasLiveMatch(ps, ps[i].pid, ps[i].waitPid)
      && forall c :: 0 <= c < |ps| && ChildOf(ps[c], ps[i].pid, ps[i].waitPid) ==> ps[c].state != Exited
  }

  predicate MailWaitsOk(ps: Procs) {
    forall i :: 0 <= i < |ps| && ps[i].reason == IpcRecv ==> ps[i].mail.None?
  }

  predicate InputWaitsOk(ps: Procs, ring: seq<byte>) {
    ring != [] ==> forall i :: 0 <= i < |ps| ==> ps[i].reason != ConsoleInput
  }

  /** Slot 0 is the idle process, which never waits and has no relatives. */
  predicate IdleOk(ps: Procs) {
    |ps| > 0 && ps[0].state == Runnable && ps[0].parent == 0
  }

  ghost predicate TableOk(ps: Procs) {
    && PidsOk(ps) && ParentsLive(ps) && Forest(ps) && WaitingHasReason(ps)
    && ChildWaitsOk(ps) && MailWaitsOk(ps) && IdleOk(ps)
  }

  ghost predicate Inv(s: Sys) {
    && WellFormed(s) && |s.ring| <= s.capacity && 0 < s.init
    && (!s.halted ==> TableOk(s.procs) && InputWaitsOk(s.procs, s.ring) && Live(s.procs[s.init]))
  }

  // ----- pieces of steps -----

  /** Links are only cut, never made: the old ranking still works. */
  lemma ForestShrinks(ps: Procs, qs: Procs)
    requires Forest(ps) && |qs| == |ps|
    requires forall i :: 0 <= i < |ps| ==> qs[i].parent == ps[i].parent || qs[i].parent == 0
    ensures Forest(qs)
  {
    var rank :| Ranks(ps, rank);
    assert Ranks(qs, rank);
  }

  lemma KeepsLiveMatch(ps: Procs, qs: Procs, parent: int, target: int, c: nat)
    requires c < |qs| && LiveMatch(qs[c], parent, target)
    ensures HasLiveMatch(qs, parent, target)
  {
  }

  /** Freeing zombies never hurts anybody: nobody's parent, nobody's live child. */
  lemma FreeZombies(ps: Procs, qs: Procs)
    requires TableOk(ps) && |qs| == |ps|
    requires forall i :: 0 <= i < |ps| ==> qs[i] == ps[i] || (ps[i].state == Exited && qs[i] == RECYCLED)
    ensures TableOk(qs)
  {
    ForestShrinks(ps, qs);
    forall i | 0 <= i < |qs| && qs[i].reason == ChildExit
      ensures HasLiveMatch(qs, qs[i].pid, qs[i].waitPid)
    {
      var c :| 0 <= c < |ps| && LiveMatch(ps[c], ps[i].pid, ps[i].waitPid);
      KeepsLiveMatch(ps, qs, qs[i].pid, qs[i].waitPid, c);
    }
  }

  lemma ReapKeeps(ps: Procs)
    requires TableOk(ps)
    ensures TableOk(Reap(ps))
  {
    FreeZombies(ps, Reap(ps));
  }

  /** The slot is as before, woken, woken by a message, or awake with other mail. */
  predicate WokenFrom(p: Proc, q: Proc) {
    || q == p
    || (p.state == Waiting && q == Wake(p))
    || (p.state == Waiting && p.reason == IpcRecv && q == Wake(p.(mail := q.mail)))
    || (Live(p) && p.reason != IpcRecv && q == p.(mail := q.mail))
  }

  /** Waking sleepers and changing mail of awake processes is harmless. */
  lemma WakeKeeps(ps: Procs, qs: Procs)
    requires TableOk(ps) && |qs| == |ps|
    requires forall i :: 0 <= i < |ps| ==> WokenFrom(ps[i], qs[i])
    ensures TableOk(qs)
  {
    hide ChildWaitsOk, WokenFrom;
    forall i | 0 <= i < |ps| ensures WokenFields(ps[i], qs[i]) {
      WokenKeepsFields(ps[i], qs[i]);
    }
    ForestShrinks(ps, qs);
    WakeKeepsWaits(ps, qs);
  }

  /** What waking and mail leave of a slot. */
  predicate WokenFields(p: Proc, q: Proc) {
    && q.pid == p.pid && q.parent == p.parent
    && (q.state == p.state || (p.state == Waiting && q.state == Runnable))
    && (q.state == Waiting <==> q.state == p.state == Waiting)
    && (q.state == p.state ==> q.reason == p.reason && q.waitPid == p.waitPid)
    && (q.state != p.state ==> q.reason == NoWait)
    && (q.state == Waiting && q.reason == IpcRecv ==> q.mail == p.mail)
    && (p.state == Unused ==> q == p)
  }

  lemma WokenKeepsFields(p: Proc, q: Proc)
    requires WokenFrom(p, q)
    ensures WokenFields(p, q)
  {
  }

  lemma WakeKeepsWaits(ps: Procs, qs: Procs)
    requires TableOk(ps) && |qs| == |ps| && forall i :: 0 <= i < |ps| ==> WokenFields(ps[i], qs[i])
    ensures ChildWaitsOk(qs)
  {
    hide ParentsLive, Forest, MailWaitsOk;
    forall i | 0 <= i < |qs| && qs[i].reason == ChildExit
      ensures HasLiveMatch(qs, qs[i].pid, qs[i].waitPid)
    {
      var c :| 0 <= c < |ps| && LiveMatch(ps[c], ps[i].pid, ps[i].waitPid);
      KeepsLiveMatch(ps, qs, qs[i].pid, qs[i].waitPid, c);
    }
  }

  /** What ending slot `t` does to a slot that held `p`. */
  predicate EndedFrom(ps: Procs, t: nat, i: nat, q: Proc)
    requires t < |ps| && i < |ps|
  {
    var p := ps[i].(parent := if ps[i].parent == t then 0 else ps[i].parent);
    if i == t then q == ps[t].(state := Exited, reason := NoWait, waitPid := -1)
    else if ps[t].parent > 0 && WaitsForChild(ps[i], ps[t].parent, t) then q == Wake(p)
    else q == p
  }

  lemma EndAt(ps: Procs, t: nat, i: nat)
    requires 0 < t < |ps| && i < |ps| && ps[t].pid == t && ps[t].parent != t
    ensures EndedFrom(ps, t, i, End(ps, t)[i])
  {
  }

  lemma NotOwnParent(ps: Procs, t: nat)
    requires Forest(ps) && 0 < t < |ps|
    ensures ps[t].parent != t
  {
    var rank :| Ranks(ps, rank);
  }

  lemma EndKeepsLinks(ps: Procs, t: nat, qs: Procs)
    requires TableOk(ps) && t < |ps| && Live(ps[t]) && 0 < t && |qs| == |ps|
    requires forall i :: 0 <= i < |ps| ==> EndedFrom(ps, t, i, qs[i])
    ensures PidsOk(qs) && ParentsLive(qs)
  {
    hide ChildWaitsOk, MailWaitsOk, Forest;
    NotOwnParent(ps, t);
  }

  lemma EndKeepsReasons(ps: Procs, t: nat, qs: Procs)
    requires TableOk(ps) && t < |ps| && Live(ps[t]) && 0 < t && |qs| == |ps|
    requires forall i :: 0 <= i < |ps| ==> EndedFrom(ps, t, i, qs[i])
    ensures WaitingHasReason(qs) && MailWaitsOk(qs) && IdleOk(qs)
  {
    hide ChildWaitsOk, ParentsLive, Forest;
  }

  lemma EndKeepsWait(ps: Procs, t: nat, qs: Procs, i: nat)
    requires TableOk(ps) && t < |ps| && Live(ps[t]) && 0 < t && |qs| == |ps|
    requires forall i :: 0 <= i < |ps| ==> EndedFrom(ps, t, i, qs[i])
    requires i < |ps| && qs[i].reason == ChildExit
    ensures HasLiveMatch(qs, qs[i].pid, qs[i].waitPid)
    ensures forall c :: 0 <= c < |qs| && ChildOf(qs[c], qs[i].pid, qs[i].waitPid) ==> qs[c].state != Exited
  {
    assert i != t && ps[i].reason == ChildExit && ps[i].pid == qs[i].pid && ps[i].waitPid == qs[i].waitPid;
    var c :| 0 <= c < |ps| && LiveMatch(ps[c], ps[i].pid, ps[i].waitPid);
    assert EndedFrom(ps, t, c, qs[c]);
    KeepsLiveMatch(ps, qs, qs[i].pid, qs[i].waitPid, c);
    forall c | 0 <= c < |qs| && ChildOf(qs[c], qs[i].pid, qs[i].waitPid)
      ensures qs[c].state != Exited
    {
      assert EndedFrom(ps, t, c, qs[c]);
    }
  }

  lemma EndKeeps(ps: Procs, t: nat)
    requires TableOk(ps) && t < |ps| && Live(ps[t]) && 0 < t
    ensures TableOk(End(ps, t))
  {
    var qs := End(ps, t);
    NotOwnParent(ps, t);
    forall i | 0 <= i < |ps| ensures EndedFrom(ps, t, i, qs[i]) {
      EndAt(ps, t, i);
    }
    EndKeepsLinks(ps, t, qs);
    EndKeepsReasons(ps, t, qs);
    ForestShrinks(ps, qs);
    forall i | 0 <= i < |qs| && qs[i].reason == ChildExit
      ensures HasLiveMatch(qs, qs[i].pid, qs[i].waitPid)
      ensures forall c :: 0 <= c < |qs| && ChildOf(qs[c], qs[i].pid, qs[i].waitPid) ==> qs[c].state != Exited
    {
      EndKeepsWait(ps, t, qs, i);
    }
  }

  /** A new child enters a free slot, below its live parent. */
  lemma SpawnKeeps(ps: Procs, slot: nat, parent: nat)
    requires TableOk(ps) && slot < |ps| && ps[slot].state == Unused
    requires parent == 0 || (parent < |ps| && Live(ps[parent]) && ps[parent].reason == NoWait)
    ensures TableOk(ps[slot := Spawned(slot, parent)])
  {
    hide ChildWaitsOk;
    var qs := ps[slot := Spawned(slot, parent)];
    var rank :| Ranks(ps, rank);
    var next := rank[slot := if parent == 0 then 0 else rank[parent] + 1];
    assert forall i :: 0 <= i < |ps| ==> ps[i].parent != slot || slot == 0;
    assert Ranks(qs, next);
    SpawnKeepsWaits(ps, slot, parent);
  }

  lemma SpawnKeepsWaits(ps: Procs, slot: nat, parent: nat)
    requires TableOk(ps) && slot < |ps| && ps[slot].state == Unused
    requires parent == 0 || (parent < |ps| && Live(ps[parent]) && ps[parent].reason == NoWait)
    ensures ChildWaitsOk(ps[slot := Spawned(slot, parent)])
  {
    hide ParentsLive, Forest, MailWaitsOk;
    var qs := ps[slot := Spawned(slot, parent)];
    forall i | 0 <= i < |qs| && qs[i].reason == ChildExit
      ensures HasLiveMatch(qs, qs[i].pid, qs[i].waitPid)
    {
      var c :| 0 <= c < |ps| && LiveMatch(ps[c], ps[i].pid, ps[i].waitPid);
      KeepsLiveMatch(ps, qs, qs[i].pid, qs[i].waitPid, c);
    }
  }

  /** The running process goes to sleep, for a reason that is not already satisfied. */
  lemma SleepKeeps(ps: Procs, i: nat, reason: Reason, waitPid: int)
    requires TableOk(ps) && 0 < i < |ps| && ps[i].state == Runnable && reason != NoWait
    requires reason == IpcRecv ==> ps[i].mail.None?
    requires reason == ChildExit ==>
      && FirstChild(ps, i, waitPid).Some?
      && FirstExitedChild(ps, i, waitPid).None?
    ensures TableOk(ps[i := ps[i].(state := Waiting, reason := reason, waitPid := waitPid)])
  {
    hide ChildWaitsOk;
    var qs := ps[i := ps[i].(state := Waiting, reason := reason, waitPid := waitPid)];
    NotOwnParent(ps, i);
    ForestShrinks(ps, qs);
    SleepKeepsWaits(ps, i, reason, waitPid);
  }

  lemma SleepKeepsWaits(ps: Procs, i: nat, reason: Reason, waitPid: int)
    requires TableOk(ps) && 0 < i < |ps| && ps[i].state == Runnable && reason != NoWait && ps[i].parent != i
    requires reason == ChildExit ==>
      && FirstChild(ps, i, waitPid).Some?
      && FirstExitedChild(ps, i, waitPid).None?
    ensures ChildWaitsOk(ps[i := ps[i].(state := Waiting, reason := reason, waitPid := waitPid)])
  {
    hide ParentsLive, Forest, MailWaitsOk;
    var qs := ps[i := ps[i].(state := Waiting, reason := reason, waitPid := waitPid)];
    forall j | 0 <= j < |qs| && qs[j].reason == ChildExit
      ensures HasLiveMatch(qs, qs[j].pid, qs[j].waitPid)
    {
      if j == i {
        var c := FirstChild(ps, i, waitPid).value;
        assert ChildOf(ps[c], i, waitPid);
        KeepsLiveMatch(ps, qs, i, waitPid, c);
      } else {
        var c :| 0 <= c < |ps| && LiveMatch(ps[c], ps[j].pid, ps[j].waitPid);
        KeepsLiveMatch(ps, qs, qs[j].pid, qs[j].waitPid, c);
      }
    }
  }

  lemma FindByPidIsSlot(ps: Procs, pid: int)
    requires PidsOk(ps)
    ensures FindByPid(ps, pid) ==
      if 0 < pid < |ps| && ps[pid].state != Unused then Some(pid) else None
  {
  }

  // ----- steps -----

  lemma YieldKeeps(s: Sys)
    requires Inv(s) && !s.halted
    ensures Inv(Yield(s)) && Yield(s).procs == Reap(s.procs) && Yield(s).ring == s.ring
  {
    ReapKeeps(s.procs);
  }

  lemma PollKeeps(s: Sys, available: seq<byte>)
    requires Inv(s) && !s.halted
    ensures Inv(Poll(s, available))
  {
    WakeKeeps(s.procs, Poll(s, available).procs);
  }

  lemma ExitKeeps(s: Sys)
    requires Inv(s) && !s.halted && Running(s)
    ensures Inv(ExitStep(s).0)
  {
    if s.cur != s.init {
      EndKeeps(s.procs, s.cur);
      EndSpares(s.procs, s.cur, s.init);
      var t := s.(procs := End(s.procs, s.cur));
      forall i | 0 <= i < |s.procs| ensures t.procs[i].reason == ConsoleInput ==> s.procs[i].reason == ConsoleInput {
        EndSpares(s.procs, s.cur, i);
      }
      YieldKeeps(t);
    }
  }

  lemma SpawnStepKeeps(s: Sys)
    requires Inv(s) && !s.halted && Running(s)
    ensures Inv(SpawnStep(s).0)
  {
    ReapKeeps(s.procs);
    var reaped := Reap(s.procs);
    match FreeSlot(reaped)
    case None =>
    case Some(i) => SpawnKeeps(reaped, i, s.cur);
  }

  lemma WaitpidKeeps(s: Sys, target: int)
    requires Inv(s) && !s.halted && Running(s)
    ensures Inv(WaitpidStep(s, target).0)
  {
    if target > 0 || target == -1 {
      match FirstExitedChild(s.procs, s.cur, target)
      case Some(i) =>
        FreeZombies(s.procs, s.procs[i := RECYCLED]);
      case None =>
        if FirstChild(s.procs, s.cur, target).Some? {
          SleepKeeps(s.procs, s.cur, ChildExit, target);
          YieldKeeps(s.(procs := s.procs[s.cur := s.procs[s.cur].(state := Waiting, reason := ChildExit, waitPid := target)]));
        }
    }
  }

  /** What ending `t` leaves of the other clauses of the invariant. */
  lemma EndSpares(ps: Procs, t: nat, i: nat)
    requires TableOk(ps) && t < |ps| && Live(ps[t]) && 0 < t && i < |ps|
    ensures End(ps, t)[i].reason == ConsoleInput ==> ps[i].reason == ConsoleInput
    ensures i == t ==> End(ps, t)[i].state == Exited
    ensures i != t && Live(ps[i]) ==> Live(End(ps, t)[i])
  {
    NotOwnParent(ps, t);
    EndAt(ps, t, i);
  }

  lemma KillLiveKeeps(s: Sys, t: nat)
    requires Inv(s) && !s.halted && 0 < t < |s.procs| && Live(s.procs[t]) && t != s.init
    ensures Inv(s.(procs := End(s.procs, t)[t := RECYCLED]))
    ensures var ended := End(s.procs, t);
      Inv(s.(procs := ended[t := ended[t].(parent := 0)]))
  {
    hide TableOk, End, Live;
    var ended := End(s.procs, t);
    EndKeeps(s.procs, t);
    forall i | 0 <= i < |s.procs|
      ensures ended[i].reason == ConsoleInput ==> s.procs[i].reason == ConsoleInput
      ensures i == t ==> ended[i].state == Exited
      ensures i != t && Live(s.procs[i]) ==> Live(ended[i])
    {
      EndSpares(s.procs, t, i);
    }
    CutZombie(ended, t);
    FreeZombies(ended, ended[t := RECYCLED]);
    InvWith(s, ended[t := RECYCLED]);
    InvWith(s, ended[t := ended[t].(parent := 0)]);
  }

  /** A table that is fine in itself, with init alive and no new console waiter. */
  lemma InvWith(s: Sys, ps: Procs)
    requires Inv(s) && !s.halted && |ps| == |s.procs| && TableOk(ps) && Live(ps[s.init])
    requires forall i :: 0 <= i < |ps| ==> ps[i].pid >= 0 && (ps[i].reason == ConsoleInput ==> s.procs[i].reason == ConsoleInput)
    ensures Inv(s.(procs := ps))
  {
    hide TableOk;
  }

  lemma KillKeeps(s: Sys, target: int)
    requires Inv(s) && !s.halted && Running(s)
    ensures Inv(KillStep(s, target).0)
  {
    FindByPidIsSlot(s.procs, target);
    if 0 < target < |s.procs| && Live(s.procs[target]) && target != s.init {
      KillLiveKeeps(s, target);
      var ended := End(s.procs, target);
      if target == s.cur {
        YieldKeeps(s.(procs := ended[target := ended[target].(parent := 0)]));
      }
    }
  }

  lemma CutZombie(ps: Procs, t: nat)
    requires TableOk(ps) && t < |ps| && ps[t].state == Exited
    ensures TableOk(ps[t := ps[t].(parent := 0)])
  {
    var qs := ps[t := ps[t].(parent := 0)];
    ForestShrinks(ps, qs);
    forall i | 0 <= i < |qs| && qs[i].reason == ChildExit
      ensures HasLiveMatch(qs, qs[i].pid, qs[i].waitPid)
    {
      var c :| 0 <= c < |ps| && LiveMatch(ps[c], ps[i].pid, ps[i].waitPid);
      KeepsLiveMatch(ps, qs, qs[i].pid, qs[i].waitPid, c);
    }
  }

  lemma SendKeeps(s: Sys, dst: int, payload: word)
    requires Inv(s) && !s.halted && Running(s)
    ensures Inv(SendStep(s, dst, payload).0)
  {
    FindByPidIsSlot(s.procs, dst);
    WakeKeeps(s.procs, SendStep(s, dst, payload).0.procs);
  }

  lemma RecvKeeps(s: Sys)
    requires Inv(s) && !s.halted && Running(s)
    ensures Inv(RecvStep(s).0)
  {
    FindByPidIsSlot(s.procs, s.cur);
    var p := s.procs[s.cur];
    if p.mail.Some? {
      WakeKeeps(s.procs, RecvStep(s).0.procs);
    } else {
      SleepKeeps(s.procs, s.cur, IpcRecv, -1);
      YieldKeeps(s.(procs := s.procs[s.cur := p.(state := Waiting, reason := IpcRecv, waitPid := -1)]));
    }
  }

  lemma GetcharKeeps(s: Sys, available: seq<byte>)
    requires Inv(s) && !s.halted && Running(s)
    ensures Inv(GetcharStep(s, available).0)
  {
    PollKeeps(s, available);
    var t := if s.ring == [] then Poll(s, available) else s;
    if t.ring == [] {
      SleepKeeps(t.procs, t.cur, ConsoleInput, t.procs[t.cur].waitPid);
      YieldKeeps(t.(procs := t.procs[t.cur := t.procs[t.cur].(state := Waiting, reason := ConsoleInput)]));
    } else {
      assert t.procs[t.cur].(reason := NoWait) == t.procs[t.cur];
      assert t.procs[t.cur := t.procs[t.cur]] == t.procs;
    }
  }

  lemma TickKeeps(s: Sys, available: seq<byte>, resched: bool)
    requires Inv(s) && !s.halted
    ensures Inv(TickStep(s, available, resched).0)
  {
    PollKeeps(s, available);
    YieldKeeps(Poll(s, available));
  }

  lemma ExecKeeps(s: Sys)
    requires Inv(s) && !s.halted && Running(s)
    ensures Inv(ExecStep(s).0)
  {
    hide Ranks;
    var qs := ExecStep(s).0.procs;
    ForestShrinks(s.procs, qs);
    forall i | 0 <= i < |qs| && qs[i].reason == ChildExit ensures HasLiveMatch(qs, qs[i].pid, qs[i].waitPid) {
      var c :| 0 <= c < |qs| && LiveMatch(s.procs[c], s.procs[i].pid, s.procs[i].waitPid);
      KeepsLiveMatch(s.procs, qs, qs[i].pid, qs[i].waitPid, c);
    }
  }

  /** Every step of every process keeps the invariant. */
  lemma StepKeeps(s: Sys, op: Op)
    requires Inv(s)
    ensures Inv(Step(s, op).0)
  {
    hide ExitStep, SpawnStep, ExecStep, WaitpidStep, KillStep, SendStep, RecvStep, GetcharStep, TickStep, Running, TableOk;
    if Enabled(s, op) {
      match op
      case Exit => ExitKeeps(s);
      case Clone(known) => SpawnStepKeeps(s);
      case Fork => SpawnStepKeeps(s);
      case Exec(loaded) => ExecKeeps(s);
      case Waitpid(target) => WaitpidKeeps(s, target);
      case Kill(target) => KillKeeps(s, target);
      case Send(dst, payload) => SendKeeps(s, dst, payload);
      case Recv => RecvKeeps(s);
      case Getchar(available) => GetcharKeeps(s, available);
      case Tick(available, resched) => TickKeeps(s, available, resched);
    }
  }
}
