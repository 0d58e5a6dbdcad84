/** Theorems about whole runs of the process protocol, from boot. */
module ProcessRuns {
  import opened CTypes
  import opened ProcessModel
  import opened ProcessInvariant

  // ----- runs -----

  /** The state after `ops`, executed one after the other. */
  function Run(s: Sys, ops: seq<Op>): (r: Sys)
    requires WellFormed(s)
    ensures SameShape(s, r)
    decreases |ops|
  {
    if ops == [] then s else Step(Run(s, ops[..|ops| - 1]), ops[|ops| - 1]).0
  }

  function Init(ops: seq<Op>): seq<Op>
    requires ops != []
  {
    ops[..|ops| - 1]
  }

  function Last(ops: seq<Op>): Op
    requires ops != []
  {
    ops[|ops| - 1]
  }

  lemma BootTable(slots: nat)
    requires slots >= 2
    ensures var both := Spawn(Spawn(Blank(slots), 0).0, 0).0;
      both == Reap(both) == Blank(slots)[0 := Spawned(0, 0)][1 := Spawned(1, 0)]
  {
    var blank := Blank(slots);
    assert Reap(blank) == blank;
    var idle := blank[0 := Spawned(0, 0)];
    assert Spawn(blank, 0).0 == idle;
    assert Reap(idle) == idle;
    assert idle[1].state == Unused && idle[0].state != Unused;
    assert Spawn(idle, 0).0 == idle[1 := Spawned(1, 0)];
  }

  lemma FirstDispatch(s: Sys)
    requires |s.procs| >= 2 && s.cur == 0 && s.procs[0] == Spawned(0, 0) && s.procs[1] == Spawned(1, 0)
    requires WellFormed(s) && Reap(s.procs) == s.procs
    ensures Yield(s) == s.(cur := 1)
  {
    hide Reap;
    assert Pick(s.procs, 0, 0) == Pick(s.procs, 0, 1) == Some(1);
  }

  lemma BootOk(slots: nat, capacity: nat)
    requires slots >= 2
    ensures var s := Boot(slots, capacity);
      && Inv(s) && !s.halted && s.cur == 1 && |s.procs| == slots
      && s.procs[0] == Proc(0, Runnable, NoWait, -1, 0, None) && s.procs[1] == Proc(1, Runnable, NoWait, -1, 0, None)
      && s.init == 1 && s.ring == [] && s.capacity == capacity
      && forall i :: 0 <= i < slots ==> s.procs[i].mail.None? && (i > 1 ==> s.procs[i].state == Unused)
  {
    BootTable(slots);
    var both := Blank(slots)[0 := Spawned(0, 0)][1 := Spawned(1, 0)];
    BootTableOk(both);
    FirstDispatch(Sys(both, 0, 1, [], capacity, false));
  }

  lemma BootTableOk(ps: Procs)
    requires |ps| >= 2 && ps[0] == Spawned(0, 0) && ps[1] == Spawned(1, 0)
    requires forall i :: 2 <= i < |ps| ==> ps[i] == Proc(0, Unused, NoWait, 0, 0, None)
    ensures TableOk(ps)
  {
    assert Ranks(ps, seq(|ps|, _ => 0));
  }

  /**
   No lost wakeup, pids equal to slots, a forest of live parents: in every
   reachable state.
   */
  lemma {:induction false} Reachable(slots: nat, capacity: nat, ops: seq<Op>)
    requires slots >= 2
    ensures Inv(Run(Boot(slots, capacity), ops))
    decreases |ops|
  {
    hide Step, Boot;
    BootOk(slots, capacity);
    if ops != [] {
      Reachable(slots, capacity, Init(ops));
      StepKeeps(Run(Boot(slots, capacity), Init(ops)), Last(ops));
    }
  }

  /** The `k`-th ancestor of slot `i`, 0 past the root of its tree. */
  function Ancestor(ps: Procs, i: nat, k: nat): (a: nat)
    requires ParentsLive(ps) && i < |ps|
    ensures a < |ps|
  {
    if k == 0 then i else ps[Ancestor(ps, i, k - 1)].parent
  }

  lemma {:induction false} AncestorRank(ps: Procs, rank: seq<nat>, i: nat, k: nat)
    requires TableOk(ps) && Ranks(ps, rank) && 0 < i < |ps| && k > 0
    ensures Ancestor(ps, i, k) == 0 || rank[Ancestor(ps, i, k)] < rank[i]
  {
    if k > 1 {
      AncestorRank(ps, rank, i, k - 1);
    }
  }

  /** No process is its own ancestor. */
  lemma NoCycles(ps: Procs, i: nat, k: nat)
    requires TableOk(ps) && 0 < i < |ps| && k > 0
    ensures Ancestor(ps, i, k) != i
  {
    var rank :| Ranks(ps, rank);
    AncestorRank(ps, rank, i, k);
  }

  // ----- what one step can do to one slot -----

  /** The step hands out slot `i`. */
  predicate Spawns(op: Op, out: Outcome, i: nat) {
    (op.Clone? || op.Fork?) && out == Returned(i)
  }

  /** The step is a waitpid that collects slot `i`. */
  predicate Collects(op: Op, out: Outcome, i: nat) {
    op.Waitpid? && out == Returned(i)
  }

  /** The step ends process `p`; killing init is refused. */
  predicate Ends(s: Sys, op: Op, p: int)
    requires WellFormed(s)
  {
    Enabled(s, op) && ((op.Exit? && s.cur == p) || (op.Kill? && op.target == p && p != s.init))
  }

  function Pending(p: Proc): seq<Message> {
    if p.mail.Some? then [p.mail.value] else []
  }

  /** Every way one slot can change in one step. */
  predicate Effect(s: Sys, op: Op, t: Sys, out: Outcome, i: nat)
    requires i < |s.procs| && |t.procs| == |s.procs| && WellFormed(s)
  {
    var p, q := s.procs[i], t.procs[i];
    // a slot is handed out only when it is free or about to be reaped, and then it is blank
    && (Spawns(op, out, i) ==> (p.state == Unused || (p.state == Exited && p.parent == 0)) && q == Proc(i, Runnable, NoWait, -1, s.cur, None))
    // a slot is in use only if it was, or was handed out
    && (!Spawns(op, out, i) && q.state != Unused ==> p.state != Unused)
    // a zombie with a parent goes only by that parent's waitpid or by its end
    && (p.state == Exited && p.parent > 0 && !Ends(s, op, p.parent) && !(Collects(op, out, i) && s.cur == p.parent) ==>
          q == p)
    && (Collects(op, out, i) ==> p.state == Exited && p.parent == s.cur && q == Proc(0, Unused, NoWait, -1, 0, None))
    // mailboxes change only by send and receive
    && (out.GotMessage? && s.cur == i ==> Pending(p) == [out.message] && q.mail.None?)
    && (op.Send? && op.dst == i && out == Returned(0) ==>
          p.mail.None? && q.mail == Some(Message(s.procs[s.cur].pid, op.payload)))
    && (var touched := Spawns(op, out, i) || (out.GotMessage? && s.cur == i) || (op.Send? && op.dst == i && out == Returned(0));
        q.state != Unused && !touched ==> q.mail == p.mail)
  }

  /** The part of the invariant that the effects rest on. */
  predicate Sane(s: Sys) {
    WellFormed(s) && PidsOk(s.procs) && forall i :: 0 < i < |s.procs| ==> s.procs[i].parent != i
  }

  lemma InvIsSane(s: Sys)
    requires Inv(s) && !s.halted
    ensures Sane(s)
  {
    var rank :| Ranks(s.procs, rank);
  }

  lemma RunningPid(s: Sys)
    requires Sane(s) && Running(s)
    ensures s.procs[s.cur].pid == s.cur > 0
    ensures forall i :: 0 <= i < |s.procs| && s.procs[i].state != Unused ==> s.procs[i].pid == i
  {
  }

  // what the parts of a step do to slot `i`

  lemma DispatchAt(s: Sys)
    requires WellFormed(s)
    ensures Dispatch(s).procs == s.procs
  {
  }

  lemma YieldAt(s: Sys, i: nat)
    requires WellFormed(s) && i < |s.procs|
    ensures Yield(s).procs[i] == if Reapable(s.procs[i]) then RECYCLED else s.procs[i]
  {
    hide Pick;
  }

  lemma PollAt(s: Sys, available: seq<byte>, i: nat)
    requires WellFormed(s) && i < |s.procs|
    ensures var p, q := s.procs[i], Poll(s, available).procs[i];
      q == p || (p.state == Waiting && q == Wake(p))
    ensures Poll(s, available).cur == s.cur && Poll(s, available).halted == s.halted
  {
  }

  lemma ExitEffect(s: Sys, i: nat)
    requires Sane(s) && !s.halted && Running(s) && i < |s.procs|
    ensures Effect(s, Exit, ExitStep(s).0, ExitStep(s).1, i)
  {
    hide Yield, End;
    if s.cur != s.init {
      EndAt(s.procs, s.cur, i);
      YieldAt(s.(procs := End(s.procs, s.cur)), i);
    }
  }

  lemma SpawnEffect(s: Sys, op: Op, i: nat)
    requires Sane(s) && Running(s) && i < |s.procs| && (op.Clone? || op.Fork?)
    ensures Effect(s, op, SpawnStep(s).0, SpawnStep(s).1, i)
  {
  }

  lemma WaitpidEffect(s: Sys, target: int, i: nat)
    requires Sane(s) && Running(s) && i < |s.procs|
    ensures Effect(s, Waitpid(target), WaitpidStep(s, target).0, WaitpidStep(s, target).1, i)
  {
    hide Yield;
    var p := s.procs[s.cur].(state := Waiting, reason := ChildExit, waitPid := target);
    YieldAt(s.(procs := s.procs[s.cur := p]), i);
  }

  lemma KillSelfEffect(s: Sys, i: nat)
    requires Sane(s) && !s.halted && Running(s) && i < |s.procs| && s.cur != s.init
    ensures Effect(s, Kill(s.cur), KillStep(s, s.cur).0, KillStep(s, s.cur).1, i)
  {
    hide End, Yield;
    FindByPidIsSlot(s.procs, s.cur);
    EndAt(s.procs, s.cur, i);
    var ended := End(s.procs, s.cur);
    YieldAt(s.(procs := ended[s.cur := ended[s.cur].(parent := 0)]), i);
  }

  lemma KillOtherEffect(s: Sys, target: int, i: nat)
    requires Sane(s) && !s.halted && Running(s) && i < |s.procs| && (s.cur != target || target == s.init)
    ensures Effect(s, Kill(target), KillStep(s, target).0, KillStep(s, target).1, i)
  {
    hide End, Yield;
    FindByPidIsSlot(s.procs, target);
    if 0 < target < |s.procs| && Live(s.procs[target]) && target != s.init {
      EndAt(s.procs, target, i);
    }
  }

  lemma SendEffect(s: Sys, dst: int, payload: word, i: nat)
    requires Sane(s) && Running(s) && i < |s.procs|
    ensures Effect(s, Send(dst, payload), SendStep(s, dst, payload).0, SendStep(s, dst, payload).1, i)
  {
    FindByPidIsSlot(s.procs, dst);
  }

  lemma RecvEffect(s: Sys, i: nat)
    requires Sane(s) && Running(s) && i < |s.procs|
    ensures Effect(s, Recv, RecvStep(s).0, RecvStep(s).1, i)
  {
    FindByPidIsSlot(s.procs, s.cur);
  }

  lemma GetcharEffect(s: Sys, available: seq<byte>, i: nat)
    requires Sane(s) && Running(s) && i < |s.procs|
    ensures Effect(s, Getchar(available), GetcharStep(s, available).0, GetcharStep(s, available).1, i)
  {
    hide Yield;
    var t := if s.ring == [] then Poll(s, available) else s;
    var p := t.procs[t.cur].(state := Waiting, reason := ConsoleInput);
    YieldAt(t.(procs := t.procs[t.cur := p]), i);
  }

  lemma TickEffect(s: Sys, available: seq<byte>, resched: bool, i: nat)
    requires Sane(s) && i < |s.procs|
    ensures Effect(s, Tick(available, resched), TickStep(s, available, resched).0, TickStep(s, available, resched).1, i)
  {
    hide Poll, Yield, Dispatch, PidsOk;
    var t := Poll(s, available);
    PollAt(s, available, i);
    YieldAt(t, i);
    DispatchAt(t);
  }

  lemma StepEffect(s: Sys, op: Op, i: nat)
    requires Inv(s) && !s.halted && i < |s.procs|
    ensures Effect(s, op, Step(s, op).0, Step(s, op).1, i)
  {
    InvIsSane(s);
    if Enabled(s, op) {
      match op
      case Exit => ExitEffect(s, i);
      case Clone(known) => SpawnEffect(s, op, i);
      case Fork => SpawnEffect(s, op, i);
      case Exec(loaded) =>
      case Waitpid(target) => WaitpidEffect(s, target, i);
      case Kill(target) =>
        if target == s.cur != s.init { KillSelfEffect(s, i); } else { KillOtherEffect(s, target, i); }
      case Send(dst, payload) => SendEffect(s, dst, payload, i);
      case Recv => RecvEffect(s, i);
      case Getchar(available) => GetcharEffect(s, available, i);
      case Tick(available, resched) => TickEffect(s, available, resched, i);
    }
  }

  // ----- zombies -----

  predicate Zombie(s: Sys, i: nat, parent: nat) {
    i < |s.procs| && 0 < parent && s.procs[i].state == Exited && s.procs[i].parent == parent && s.procs[i].pid == i
  }

  /** A process that exits under a parent becomes that parent's zombie; a parent waiting for it is woken. */
  lemma ExitMakesZombie(s: Sys)
    requires Inv(s) && !s.halted && Running(s) && s.cur != s.init && s.procs[s.cur].parent > 0
    ensures var t, parent := ExitStep(s).0, s.procs[s.cur].parent;
      && Zombie(t, s.cur, parent) && parent < |s.procs| && Live(t.procs[parent])
      && (s.procs[parent].reason == ChildExit && s.procs[parent].waitPid in {ANY_CHILD, s.cur as int} ==>
            t.procs[parent].state == Runnable)
  {
    hide Yield, End;
    var i, ended := s.cur, End(s.procs, s.cur);
    var parent := s.procs[i].parent;
    NotOwnParent(s.procs, i);
    EndAt(s.procs, i, i);
    EndAt(s.procs, i, parent);
    YieldAt(s.(procs := ended), i);
    YieldAt(s.(procs := ended), parent);
  }

  /** The step neither collects zombie `i` nor ends its parent, and the kernel is up. */
  predicate Spares(s: Sys, op: Op, i: nat, parent: nat)
    requires WellFormed(s)
  {
    !s.halted && !(Collects(op, Step(s, op).1, i) && s.cur == parent) && !Ends(s, op, parent)
  }

  /** The step does not hand out pid `i`. */
  predicate Withholds(s: Sys, op: Op, i: nat)
    requires WellFormed(s)
  {
    !Spawns(op, Step(s, op).1, i)
  }

  /**
   A zombie outlasts a step, its pid withheld, if the step neither collects it nor
   ends its parent; and, unless the step shuts the kernel down, only then.
   */
  lemma ZombieStep(s: Sys, op: Op, i: nat, parent: nat)
    requires Inv(s) && !s.halted && Zombie(s, i, parent)
    ensures Spares(s, op, i, parent) ==> Zombie(Step(s, op).0, i, parent) && Withholds(s, op, i)
    ensures !Step(s, op).0.halted && Zombie(Step(s, op).0, i, parent) ==> Spares(s, op, i, parent)
    ensures Inv(Step(s, op).0)
  {
    hide Step;
    StepEffect(s, op, i);
    StepKeeps(s, op);
    if Ends(s, op, parent) {
      EndedParent(s, op, i, parent);
    }
  }

  /** Ending a parent cuts the links of its children, or shuts the kernel down. */
  lemma EndedParent(s: Sys, op: Op, i: nat, parent: nat)
    requires Inv(s) && !s.halted && Zombie(s, i, parent) && Ends(s, op, parent)
    ensures !Zombie(Step(s, op).0, i, parent) || Step(s, op).0.halted
  {
    hide Yield, End;
    NotOwnParent(s.procs, i);
    NotOwnParent(s.procs, parent);
    FindByPidIsSlot(s.procs, parent);
    EndAt(s.procs, parent, i);
    var ended := End(s.procs, parent);
    YieldAt(s.(procs := ended), i);
    YieldAt(s.(procs := ended[parent := ended[parent].(parent := 0)]), i);
  }

  /** The `k`-th step of the run spares the zombie. */
  predicate SparesAt(s: Sys, ops: seq<Op>, k: nat, i: nat, parent: nat)
    requires WellFormed(s) && k < |ops|
  {
    Spares(Run(s, ops[..k]), ops[k], i, parent)
  }

  lemma SparesPrefix(s: Sys, ops: seq<Op>, n: nat, i: nat, parent: nat)
    requires WellFormed(s) && n <= |ops| && forall k :: 0 <= k < |ops| ==> SparesAt(s, ops, k, i, parent)
    ensures forall k :: 0 <= k < n ==> SparesAt(s, ops[..n], k, i, parent)
  {
    forall k | 0 <= k < n ensures SparesAt(s, ops[..n], k, i, parent) {
      assert SparesAt(s, ops, k, i, parent);
      assert ops[..n][..k] == ops[..k] && ops[..n][k] == ops[k];
    }
  }

  /** A zombie outlasts any run in which its parent neither collects it nor ends. */
  lemma {:induction false} ZombieStays(s: Sys, ops: seq<Op>, i: nat, parent: nat)
    requires Inv(s) && Zombie(s, i, parent) && forall k :: 0 <= k < |ops| ==> SparesAt(s, ops, k, i, parent)
    ensures Inv(Run(s, ops)) && Zombie(Run(s, ops), i, parent)
    decreases |ops|
  {
    hide Step;
    if ops != [] {
      SparesPrefix(s, ops, |ops| - 1, i, parent);
      ZombieStays(s, Init(ops), i, parent);
      assert SparesAt(s, ops, |ops| - 1, i, parent);
      ZombieStep(Run(s, Init(ops)), Last(ops), i, parent);
    }
  }

  /** The refused kill of init spares the zombies of init. */
  lemma KillInitSpares(s: Sys, i: nat)
    requires Inv(s) && !s.halted && Zombie(s, i, s.init)
    ensures Spares(s, Kill(s.init), i, s.init) && Zombie(Step(s, Kill(s.init)).0, i, s.init)
  {
    hide Step;
    ZombieStep(s, Kill(s.init), i, s.init);
  }

  /** And all along that run its pid is not handed out. */
  lemma ZombieKeepsPid(s: Sys, ops: seq<Op>, i: nat, parent: nat, k: nat)
    requires Inv(s) && Zombie(s, i, parent) && forall k :: 0 <= k < |ops| ==> SparesAt(s, ops, k, i, parent)
    requires k < |ops|
    ensures Withholds(Run(s, ops[..k]), ops[k], i)
  {
    hide Step;
    SparesPrefix(s, ops, k, i, parent);
    ZombieStays(s, ops[..k], i, parent);
    assert SparesAt(s, ops, k, i, parent);
    ZombieStep(Run(s, ops[..k]), ops[k], i, parent);
  }

  function InUse(s: Sys, i: nat): nat {
    if i < |s.procs| && s.procs[i].state != Unused then 1 else 0
  }

  /** `collected`, how often a waitpid collected pid `i` in its present life, after one more step. */
  function NextCollections(s: Sys, op: Op, i: nat, collected: nat): nat
    requires WellFormed(s)
  {
    var out := Step(s, op).1;
    if Spawns(op, out, i) then 0 else if Collects(op, out, i) then collected + 1 else collected
  }

  /** How often a waitpid collected pid `i` since it was last handed out. */
  function Collections(s: Sys, ops: seq<Op>, i: nat): nat
    requires WellFormed(s)
    decreases |ops|
  {
    if ops == [] then 0 else NextCollections(Run(s, Init(ops)), Last(ops), i, Collections(s, Init(ops), i))
  }

  lemma CountStep(s: Sys, op: Op, i: nat, collected: nat)
    requires Inv(s) && i < |s.procs| && collected + InUse(s, i) <= 1
    ensures NextCollections(s, op, i, collected) + InUse(Step(s, op).0, i) <= 1
  {
    hide Step;
    if !s.halted {
      StepEffect(s, op, i);
    } else {
      HaltedStays(s, op);
    }
  }

  lemma HaltedStays(s: Sys, op: Op)
    requires WellFormed(s) && s.halted
    ensures Step(s, op) == (s, Suspended)
  {
  }

  /** In every run each life of a pid is collected at most once, and not while it goes on. */
  lemma {:induction false} CollectedAtMostOnce(slots: nat, capacity: nat, ops: seq<Op>, i: nat)
    requires slots >= 2 && i < slots
    ensures var s := Boot(slots, capacity);
      Collections(s, ops, i) + InUse(Run(s, ops), i) <= 1
    decreases |ops|
  {
    hide Step, Boot;
    BootOk(slots, capacity);
    if ops != [] {
      CollectedAtMostOnce(slots, capacity, Init(ops), i);
      Reachable(slots, capacity, Init(ops));
      CountStep(Run(Boot(slots, capacity), Init(ops)), Last(ops), i, Collections(Boot(slots, capacity), Init(ops), i));
    }
  }

  // ----- mailboxes -----

  /** `log`, the messages sent to `d` with result 0 since `d` was last handed out, after one more step. */
  function LogSend(s: Sys, op: Op, d: nat, log: seq<Message>): seq<Message>
    requires WellFormed(s)
  {
    var out := Step(s, op).1;
    if Spawns(op, out, d) then []
    else if op.Send? && op.dst == d && out == Returned(0) then log + [Message(s.procs[s.cur].pid, op.payload)]
    else log
  }

  /** `log`, the messages received by `d` since `d` was last handed out, after one more step. */
  function LogReceive(s: Sys, op: Op, d: nat, log: seq<Message>): seq<Message>
    requires WellFormed(s)
  {
    var out := Step(s, op).1;
    if Spawns(op, out, d) then []
    else if s.cur == d && out.GotMessage? then log + [out.message]
    else log
  }

  function Sent(s: Sys, ops: seq<Op>, d: nat): seq<Message>
    requires WellFormed(s)
    decreases |ops|
  {
    if ops == [] then [] else LogSend(Run(s, Init(ops)), Last(ops), d, Sent(s, Init(ops), d))
  }

  function Received(s: Sys, ops: seq<Op>, d: nat): seq<Message>
    requires WellFormed(s)
    decreases |ops|
  {
    if ops == [] then [] else LogReceive(Run(s, Init(ops)), Last(ops), d, Received(s, Init(ops), d))
  }

  predicate MailBalanced(s: Sys, d: nat, received: seq<Message>, sent: seq<Message>)
    requires d < |s.procs|
  {
    s.procs[d].state != Unused ==> received + Pending(s.procs[d]) == sent
  }

  lemma MailStep(s: Sys, op: Op, d: nat, received: seq<Message>, sent: seq<Message>)
    requires Inv(s) && d < |s.procs| && MailBalanced(s, d, received, sent)
    ensures MailBalanced(Step(s, op).0, d, LogReceive(s, op, d, received), LogSend(s, op, d, sent))
  {
    if !s.halted {
      StepEffect(s, op, d);
    }
  }

  /**
   Exactly once, in order: what a process has received in its lifetime followed
   by the pending message is what was sent to it.
   */
  lemma {:induction false} MailExactlyOnce(slots: nat, capacity: nat, ops: seq<Op>, d: nat)
    requires slots >= 2 && d < slots
    ensures var s := Boot(slots, capacity);
      |s.procs| == slots && MailBalanced(Run(s, ops), d, Received(s, ops, d), Sent(s, ops, d))
    decreases |ops|
  {
    hide Step, Boot;
    BootOk(slots, capacity);
    var s := Boot(slots, capacity);
    if ops != [] {
      MailExactlyOnce(slots, capacity, Init(ops), d);
      Reachable(slots, capacity, Init(ops));
      MailStep(Run(s, Init(ops)), Last(ops), d, Received(s, Init(ops), d), Sent(s, Init(ops), d));
    }
  }

  // ----- scheduling -----

  /** How many slots after `from` slot `to` comes, cyclically. */
  function Distance(n: nat, from: nat, to: nat): (d: nat)
    requires from < n && to < n
    ensures d < n
    ensures d == 0 <==> from == to
  {
    if from <= to then to - from else to + n - from
  }

  /** The scan takes the first dispatchable slot, counting from its origin. */
  lemma {:induction false} PickIsFirst(ps: Procs, origin: nat, k: nat, t: nat)
    requires 0 < |ps| && origin < |ps| && t < |ps| && Dispatchable(ps[t]) && k <= Distance(|ps|, origin, t)
    ensures Pick(ps, origin, k).Some?
    ensures Distance(|ps|, origin, Pick(ps, origin, k).value) <= Distance(|ps|, origin, t)
    decreases |ps| - k
  {
    var n := |ps|;
    WrapIndex(origin + k, n);
    var slot := (origin + k) % n;
    if !Dispatchable(ps[slot]) {
      PickIsFirst(ps, origin, k + 1, t);
    }
  }

  /**
   Whoever `yield` hands the CPU to is runnable and is not the idle process; a
   runnable caller keeps it; and `yield` waits only if nobody can run.
   */
  lemma DispatchChoice(s: Sys)
    requires Inv(s) && !s.halted
    ensures var t := Dispatch(s);
      && (t.cur != s.cur ==> Running(t) && t.cur > 0)
      && (Running(s) ==> t == s)
      && (!Running(t) ==> forall i :: 0 <= i < |s.procs| ==> !Dispatchable(s.procs[i]))
  {
    if Running(s) {
      WrapIndex(s.cur, |s.procs|);
    }
    forall i | 0 <= i < |s.procs| && Dispatchable(s.procs[i]) ensures Running(Dispatch(s)) {
      PickIsFirst(s.procs, s.procs[s.cur].pid, 0, i);
    }
  }

  /** Slot `i` can run once the interrupt has taken `available` from the console. */
  predicate Ready(s: Sys, available: seq<byte>, i: nat)
    requires i < |s.procs|
  {
    || (s.procs[i].state == Runnable && s.procs[i].pid > 0)
    || (s.procs[i].state == Waiting && s.procs[i].reason == ConsoleInput && s.procs[i].pid > 0
        && (s.ring != [] || (available != [] && |s.ring| < s.capacity)))
  }

  /**
   When a timer interrupt hands the CPU over: exactly if the process it finds
   there cannot run, nor is woken by the input it takes, and some other can or is.
   A used-up time slice alone never does, so there is no preemption.
   */
  lemma TickSwitchesIff(s: Sys, available: seq<byte>, resched: bool)
    requires Inv(s) && !s.halted
    ensures var t := Step(s, Tick(available, resched)).0;
      && (t.cur != s.cur <==>
            !Ready(s, available, s.cur) && exists i: nat :: i < |s.procs| && Ready(s, available, i))
      && (Running(s) ==> t.cur == s.cur)
  {
    hide Poll, Yield, Dispatch, Ready;
    var polled := Poll(s, available);
    PollKeeps(s, available);
    PollAt(s, available, s.cur);
    var ready := if resched then polled.(procs := Reap(polled.procs)) else polled;
    ReapKeepsInv(polled);
    YieldIsDispatch(polled);
    DispatchChoice(ready);
    DispatchAt(ready);
    forall i: nat | i < |s.procs| ensures Dispatchable(ready.procs[i]) <==> Ready(s, available, i) {
      PollReadies(s, available, i);
    }
  }

  lemma PollReadies(s: Sys, available: seq<byte>, i: nat)
    requires WellFormed(s) && |s.ring| <= s.capacity && i < |s.procs|
    ensures var polled := Poll(s, available).procs;
      && |polled| == |s.procs|
      && (Dispatchable(polled[i]) <==> Ready(s, available, i))
      && (Dispatchable(Reap(polled)[i]) <==> Ready(s, available, i))
  {
  }

  lemma ReapKeepsInv(s: Sys)
    requires Inv(s) && !s.halted
    ensures Inv(s.(procs := Reap(s.procs)))
  {
    ReapKeeps(s.procs);
  }

  lemma YieldIsDispatch(s: Sys)
    requires WellFormed(s)
    ensures Yield(s) == Dispatch(s.(procs := Reap(s.procs)))
  {
  }

  /** Round robin fails: after a fork, the timer leaves the CPU with the parent although the child is ready. */
  lemma NoRoundRobin()
    ensures var s := Step(Boot(3, 1), Fork).0;
      && s.cur == 1 && Dispatchable(s.procs[2])
      && Step(s, Tick([], true)).0.cur == 1
  {
    BootOk(3, 1);
    BootTable(3);
    var s := Boot(3, 1);
    var both := Blank(3)[0 := Spawned(0, 0)][1 := Spawned(1, 0)];
    FirstDispatch(Sys(both, 0, 1, [], 1, false));
    assert s.procs == both && Running(s);
    assert FreeSlot(both) == Some(2);
    StepKeeps(s, Fork);
    TickSwitchesIff(Step(s, Fork).0, [], true);
  }

  /** Slot `t` is passed over: it was and remains ready, was not dispatched, and the caller was not recycled. */
  predicate PassedOver(s: Sys, op: Op, t: nat)
    requires WellFormed(s)
  {
    var after := Step(s, op).0;
    && t < |s.procs| && Dispatchable(s.procs[t]) && Dispatchable(after.procs[t]) && after.cur != t
    && after.procs[s.cur].state != Unused && !after.halted
  }

  /** A step that changes the current process ends in `yield`'s scan. */
  lemma SwitchesByDispatch(s: Sys, op: Op)
    requires WellFormed(s)
    ensures var t := Step(s, op).0;
      t.cur != s.cur ==> t == Dispatch(t.(cur := s.cur))
  {
    hide Pick, Reap, End, FindByPid, FirstChild, FirstExitedChild, FreeSlot;
  }

  lemma CloserByDispatch(s: Sys, t: nat)
    requires WellFormed(s) && s.procs[s.cur].pid == s.cur
    requires t < |s.procs| && Dispatchable(s.procs[t]) && Dispatch(s).cur != t && Dispatch(s).cur != s.cur
    ensures Distance(|s.procs|, Dispatch(s).cur, t) < Distance(|s.procs|, s.cur, t)
  {
    PickIsFirst(s.procs, s.cur, 0, t);
  }

  /** 1 if the step is a context switch. */
  function Switch(s: Sys, op: Op): nat
    requires WellFormed(s)
  {
    if Step(s, op).0.cur != s.cur then 1 else 0
  }

  lemma PassedOverStep(s: Sys, op: Op, t: nat)
    requires Inv(s) && PassedOver(s, op, t) && s.cur != t
    ensures var after := Step(s, op).0;
      && Inv(after) && !after.halted && after.cur != t
      && Distance(|s.procs|, after.cur, t) + Switch(s, op) <= Distance(|s.procs|, s.cur, t)
  {
    StepKeeps(s, op);
    var after := Step(s, op).0;
    if after.cur != s.cur {
      SwitchesByDispatch(s, op);
      CloserByDispatch(after.(cur := s.cur), t);
    }
  }

  function Switches(s: Sys, ops: seq<Op>): nat
    requires WellFormed(s)
    decreases |ops|
  {
    if ops == [] then 0 else Switches(s, Init(ops)) + Switch(Run(s, Init(ops)), Last(ops))
  }

  predicate PassedOverAt(s: Sys, ops: seq<Op>, k: nat, t: nat)
    requires WellFormed(s) && k < |ops|
  {
    PassedOver(Run(s, ops[..k]), ops[k], t)
  }

  lemma PassedOverInit(s: Sys, ops: seq<Op>, t: nat)
    requires WellFormed(s) && ops != [] && forall k :: 0 <= k < |ops| ==> PassedOverAt(s, ops, k, t)
    ensures forall k :: 0 <= k < |Init(ops)| ==> PassedOverAt(s, Init(ops), k, t)
    ensures PassedOver(Run(s, Init(ops)), Last(ops), t)
  {
    forall k | 0 <= k < |Init(ops)| ensures PassedOverAt(s, Init(ops), k, t) {
      assert PassedOverAt(s, ops, k, t);
      assert Init(ops)[k] == ops[k] && Init(ops)[..k] == ops[..k];
    }
    assert PassedOverAt(s, ops, |ops| - 1, t);
  }

  /** Bounded bypass: fewer than one switch per slot can pass over a ready process. */
  lemma {:induction false} BoundedBypass(s: Sys, ops: seq<Op>, t: nat)
    requires Inv(s) && !s.halted && t < |s.procs| && s.cur != t
    requires forall k :: 0 <= k < |ops| ==> PassedOverAt(s, ops, k, t)
    ensures Inv(Run(s, ops)) && !Run(s, ops).halted && Run(s, ops).cur != t
    ensures Switches(s, ops) + Distance(|s.procs|, Run(s, ops).cur, t) <= Distance(|s.procs|, s.cur, t)
    ensures Switches(s, ops) < |s.procs| - 1
    decreases |ops|
  {
    hide Step;
    if ops != [] {
      PassedOverInit(s, ops, t);
      BoundedBypass(s, Init(ops), t);
      PassedOverStep(Run(s, Init(ops)), Last(ops), t);
    }
  }
}
