/**
  The process table of xv6/proc.c under fork, exit, wait, kill, sleep, wakeup and scheduling, as a state
  machine whose steps are what runs under one hold of ptable.lock, plus the steps of fork that run
  without it. A process is its slot in the table.
 */
module ProcTable {
  import opened Basics

  /** wait sleeps on the process itself, everything else on some other address. */
  datatype Chan = OnProc(p: nat) | Other(x: nat)

  datatype PState = Unused | Embryo | Sleeping(chan: Chan) | Runnable | Running | Zombie

  datatype Proc = Proc(state: PState, pid: nat, parent: Option<nat>, killed: bool)

  /** A fork in progress into some slot: who runs it, and whether the new slot has its parent yet. */
  datatype Fork = Fork(forker: nat, parented: bool)

  /** `freed`: the pids whose stack and memory wait freed, in order. `born`: the pids that ever started. */
  datatype Table = Table(procs: seq<Proc>, nextpid: nat, init: nat, forks: map<nat, Fork>,
                         freed: seq<nat>, born: set<nat>)

  // ---------------------------------------------------------------- what the scans compute

  predicate Live(s: PState) {
    s.Sleeping? || s.Runnable? || s.Running?
  }

  function WakeOne(pr: Proc, c: Chan): Proc {
    if pr.state == Sleeping(c) then pr.(state := Runnable) else pr
  }

  /** wakeup1: every process asleep on c becomes runnable. */
  function Woken(ps: seq<Proc>, c: Chan): (r: seq<Proc>)
    ensures |r| == |ps|
    ensures forall q :: 0 <= q < |ps| ==> r[q] == WakeOne(ps[q], c)
  {
    seq(|ps|, q requires 0 <= q < |ps| => WakeOne(ps[q], c))
  }

  function Adopt(pr: Proc, p: nat, init: nat): Proc {
    if pr.parent == Some(p) then pr.(parent := Some(init)) else pr
  }

  /** The children of p passed to init. */
  function Adopted(ps: seq<Proc>, p: nat, init: nat): (r: seq<Proc>)
    ensures |r| == |ps|
    ensures forall q :: 0 <= q < |ps| ==> r[q] == Adopt(ps[q], p, init)
  {
    seq(|ps|, q requires 0 <= q < |ps| => Adopt(ps[q], p, init))
  }

  predicate ZombieChild(ps: seq<Proc>, p: nat, q: nat) {
    q < |ps| && ps[q].parent == Some(p) && ps[q].state == Zombie
  }

  ghost predicate HasZombie(ps: seq<Proc>, p: nat) {
    exists q :: ZombieChild(ps, p, q)
  }

  /** exit: wake the parent, pass the children to init and wake it if one is a zombie, become a zombie. */
  ghost function Exited(ps: seq<Proc>, p: nat, init: nat): (r: seq<Proc>)
    requires p < |ps| && ps[p].parent.Some?
    ensures |r| == |ps|
  {
    var ps1 := Woken(ps, OnProc(ps[p].parent.value));
    var ps2 := Adopted(ps1, p, init);
    var ps3 := if HasZombie(ps, p) then Woken(ps2, OnProc(init)) else ps2;
    ps3[p := ps3[p].(state := Zombie)]
  }

  predicate FirstUnused(ps: seq<Proc>, q: nat) {
    q < |ps| && ps[q].state == Unused && forall r :: 0 <= r < q ==> ps[r].state != Unused
  }

  predicate FirstZombie(ps: seq<Proc>, p: nat, q: nat) {
    ZombieChild(ps, p, q) && forall r :: 0 <= r < q ==> !ZombieChild(ps, p, r)
  }

  function Reaped(pr: Proc): Proc {
    Proc(Unused, 0, None, false)
  }

  ghost predicate HasKids(ps: seq<Proc>, p: nat) {
    exists q :: 0 <= q < |ps| && ps[q].parent == Some(p)
  }

  /** kill marks the first slot with the pid and wakes it from any sleep. */
  function Killed(pr: Proc): Proc {
    pr.(killed := true, state := if pr.state.Sleeping? then Runnable else pr.state)
  }

  predicate FirstWithPid(ps: seq<Proc>, pid: nat, q: nat) {
    q < |ps| && ps[q].pid == pid && forall r :: 0 <= r < q ==> ps[r].pid != pid
  }

  // ---------------------------------------------------------------- steps

  datatype Step =
    | ForkAlloc(p: nat, q: nat)   // allocproc takes slot q
    | ForkFail(q: nat)            // no stack or no memory: the slot is given back
    | ForkParent(q: nat)          // the new process gets its parent, without the lock
    | ForkRun(q: nat)             // the new process becomes runnable
    | Exit(p: nat)
    | WaitReap(p: nat, q: nat)    // wait finds zombie child q
    | WaitSleep(p: nat)
    | Sleep(p: nat, x: nat)
    | Wakeup(x: nat)
    | Kill(pid: nat, q: nat)
    | Run(p: nat)                 // the scheduler picks p
    | Yield(p: nat)

  predicate IsRunning(t: Table, p: nat) {
    p < |t.procs| && t.procs[p].state == Running
  }

  predicate Forking(t: Table, p: nat) {
    exists q :: q in t.forks && t.forks[q].forker == p
  }

  ghost predicate Enabled(t: Table, e: Step) {
    match e
    case ForkAlloc(p, q) => IsRunning(t, p) && !Forking(t, p) && FirstUnused(t.procs, q)
    case ForkFail(q) => q < |t.procs| && q in t.forks && IsRunning(t, t.forks[q].forker) && !t.forks[q].parented
    case ForkParent(q) => q < |t.procs| && q in t.forks && IsRunning(t, t.forks[q].forker) && !t.forks[q].parented
    case ForkRun(q) => q < |t.procs| && q in t.forks && IsRunning(t, t.forks[q].forker) && t.forks[q].parented
    case Exit(p) => IsRunning(t, p) && !Forking(t, p) && p != t.init && t.procs[p].parent.Some?
    case WaitReap(p, q) => IsRunning(t, p) && !Forking(t, p) && FirstZombie(t.procs, p, q)
    case WaitSleep(p) =>
      && IsRunning(t, p) && !Forking(t, p) && !HasZombie(t.procs, p)
      && HasKids(t.procs, p) && !t.procs[p].killed
    case Sleep(p, x) => IsRunning(t, p)
    case Wakeup(x) => true
    case Kill(pid, q) => FirstWithPid(t.procs, pid, q)
    case Run(p) => p < |t.procs| && t.procs[p].state == Runnable
    case Yield(p) => IsRunning(t, p)
  }

  function SetState(t: Table, p: nat, s: PState): Table
    requires p < |t.procs|
  {
    t.(procs := t.procs[p := t.procs[p].(state := s)])
  }

  ghost function Do(t: Table, e: Step): Table
    requires Enabled(t, e)
  {
    match e
    case ForkAlloc(p, q) =>
      t.(procs := t.procs[q := t.procs[q].(state := Embryo, pid := t.nextpid)],
         nextpid := t.nextpid + 1, forks := t.forks[q := Fork(p, false)])
    case ForkFail(q) => SetState(t, q, Unused).(forks := t.forks - {q})
    case ForkParent(q) =>
      t.(procs := t.procs[q := t.procs[q].(parent := Some(t.forks[q].forker))],
         forks := t.forks[q := t.forks[q].(parented := true)])
    case ForkRun(q) => SetState(t, q, Runnable).(forks := t.forks - {q}, born := t.born + {t.procs[q].pid})
    case Exit(p) => t.(procs := Exited(t.procs, p, t.init))
    case WaitReap(p, q) =>
      t.(procs := t.procs[q := Reaped(t.procs[q])], freed := t.freed + [t.procs[q].pid])
    case WaitSleep(p) => SetState(t, p, Sleeping(OnProc(p)))
    case Sleep(p, x) => SetState(t, p, Sleeping(Other(x)))
    case Wakeup(x) => t.(procs := Woken(t.procs, Other(x)))
    case Kill(pid, q) => t.(procs := t.procs[q := Killed(t.procs[q])])
    case Run(p) => SetState(t, p, Running)
    case Yield(p) => SetState(t, p, Runnable)
  }

  /** After userinit: one runnable process, with no parent. */
  ghost predicate Init(t: Table) {
    && t.init < |t.procs| && t.procs[t.init] == Proc(Runnable, 1, None, false)
    && (forall q :: 0 <= q < |t.procs| && q != t.init ==> t.procs[q] == Proc(Unused, 0, None, false))
    && t.nextpid == 2 && t.forks == map[] && t.freed == [] && t.born == {1}
  }

  ghost predicate Reaches(t: Table, es: seq<Step>, u: Table)
    decreases |es|
  {
    if es == [] then u == t else Enabled(t, es[0]) && Reaches(Do(t, es[0]), es[1..], u)
  }

  // ---------------------------------------------------------------- the invariant

  /** A started process other than init, running or zombie, has a live parent that is not a zombie. */
  ghost predicate ParentOk(t: Table, q: nat)
    requires q < |t.procs|
  {
    var pr := t.procs[q];
    && ((Live(pr.state) || pr.state == Zombie) && q != t.init ==>
      pr.parent.Some? && pr.parent.value < |t.procs| && pr.parent.value != q && Live(t.procs[pr.parent.value].state))
    && (q == t.init ==> Live(pr.state) && pr.parent == None)
  }

  /** Slots outside the life of a process: no parent, or the one the running fork gave. */
  ghost predicate SlotOk(t: Table, q: nat)
    requires q < |t.procs|
  {
    var pr := t.procs[q];
    && (pr.state == Unused ==> pr.parent == None)
    && (pr.state == Embryo <==> q in t.forks)
    && (q in t.forks ==> pr.parent == if t.forks[q].parented then Some(t.forks[q].forker) else None)
  }

  ghost predicate ForkOk(t: Table, q: nat)
    requires q in t.forks
  {
    q < |t.procs| && t.forks[q].forker < |t.procs| && Live(t.procs[t.forks[q].forker].state)
  }

  /** Whoever sleeps in wait sleeps on itself and has no zombie child. */
  ghost predicate WaitOk(t: Table, p: nat)
    requires p < |t.procs|
  {
    t.procs[p].state.Sleeping? && t.procs[p].state.chan.OnProc? ==>
      t.procs[p].state.chan.p == p && forall q :: 0 <= q < |t.procs| ==> !ZombieChild(t.procs, p, q)
  }

  ghost predicate PidOk(t: Table, q: nat)
    requires q < |t.procs|
  {
    && t.procs[q].pid < t.nextpid
    && (t.procs[q].state != Unused ==> t.procs[q].pid > 0 && t.procs[q].pid !in t.freed)
    && (Live(t.procs[q].state) || t.procs[q].state == Zombie ==> t.procs[q].pid in t.born)
  }

  ghost predicate PidsDiffer(t: Table, q: nat, r: nat)
    requires q < |t.procs| && r < |t.procs|
  {
    q != r && t.procs[q].state != Unused && t.procs[r].state != Unused ==> t.procs[q].pid != t.procs[r].pid
  }

  predicate InTable(t: Table, pid: nat, q: nat) {
    q < |t.procs| && t.procs[q].pid == pid && (Live(t.procs[q].state) || t.procs[q].state == Zombie)
  }

  /** A process that ever started is in the table or was freed. */
  ghost predicate BornOk(t: Table, pid: nat) {
    pid < t.nextpid && (pid in t.freed || exists q :: InTable(t, pid, q))
  }

  ghost predicate Inv(t: Table) {
    && t.init < |t.procs|
    && (forall q :: 0 <= q < |t.procs| ==> ParentOk(t, q))
    && (forall q :: 0 <= q < |t.procs| ==> SlotOk(t, q))
    && (forall q :: q in t.forks ==> ForkOk(t, q))
    && (forall p :: 0 <= p < |t.procs| ==> WaitOk(t, p))
    && PidInv(t)
  }

  ghost predicate PidInv(t: Table) {
    && (forall q :: 0 <= q < |t.procs| ==> PidOk(t, q))
    && (forall q, r :: 0 <= q < |t.procs| && 0 <= r < |t.procs| ==> PidsDiffer(t, q, r))
    && (forall pid :: pid in t.born ==> BornOk(t, pid))
    && (forall pid :: pid in t.freed ==> pid in t.born)
    && Distinct(t.freed)
  }

  lemma InitInv(t: Table)
    requires Init(t)
    ensures Inv(t)
  {
    assert InTable(t, 1, t.init);
  }

  // ---------------------------------------------------------------- exit

  /** What exit does to each slot. */
  lemma ExitedAt(ps: seq<Proc>, p: nat, init: nat, q: nat)
    requires p < |ps| && ps[p].parent.Some? && q < |ps|
    ensures var r := Exited(ps, p, init)[q];
      && r.pid == ps[q].pid && r.killed == ps[q].killed
      && r.parent == (if ps[q].parent == Some(p) then Some(init) else ps[q].parent)
      && r.state == if q == p then Zombie
        else if ps[q].state == Sleeping(OnProc(ps[p].parent.value)) then Runnable
        else if ps[q].state == Sleeping(OnProc(init)) && HasZombie(ps, p) then Runnable
        else ps[q].state
  {
  }

  lemma ExitKeeps(t: Table, p: nat)
    requires Inv(t) && Enabled(t, Exit(p))
    ensures Inv(Do(t, Exit(p)))
  {
    var t' := Do(t, Exit(p));
    forall q | 0 <= q < |t.procs| ensures ParentOk(t', q) {
      ExitParent(t, p, q);
    }
    forall q | 0 <= q < |t.procs| ensures SlotOk(t', q) && PidOk(t', q) {
      ExitedAt(t.procs, p, t.init, q);
      assert SlotOk(t, q) && PidOk(t, q) && SlotOk(t, p);
    }
    forall q | q in t'.forks ensures ForkOk(t', q) {
      assert ForkOk(t, q) && t.forks[q].forker != p;
      ExitedAt(t.procs, p, t.init, t.forks[q].forker);
    }
    forall r | 0 <= r < |t.procs| ensures WaitOk(t', r) {
      ExitWait(t, p, r);
    }
    ExitPids(t, p);
  }

  lemma ExitParent(t: Table, p: nat, q: nat)
    requires Inv(t) && Enabled(t, Exit(p)) && q < |t.procs|
    ensures ParentOk(Do(t, Exit(p)), q)
  {
    assert ParentOk(t, q) && ParentOk(t, t.init) && ParentOk(t, p);
    ExitedAt(t.procs, p, t.init, q);
    ExitedAt(t.procs, p, t.init, t.init);
    if t.procs[q].parent.Some? && t.procs[q].parent.value < |t.procs| {
      ExitedAt(t.procs, p, t.init, t.procs[q].parent.value);
    }
  }

  lemma ExitWait(t: Table, p: nat, r: nat)
    requires Inv(t) && Enabled(t, Exit(p)) && r < |t.procs|
    ensures WaitOk(Do(t, Exit(p)), r)
  {
    var t' := Do(t, Exit(p));
    ExitedAt(t.procs, p, t.init, r);
    assert WaitOk(t, r) && ParentOk(t, p);
    if t'.procs[r].state == Sleeping(OnProc(r)) {
      forall q | 0 <= q < |t.procs| ensures !ZombieChild(t'.procs, r, q) {
        ExitedAt(t.procs, p, t.init, q);
        assert !ZombieChild(t.procs, r, q);
        assert ZombieChild(t.procs, p, q) ==> HasZombie(t.procs, p);
      }
    }
  }

  lemma ExitPids(t: Table, p: nat)
    requires Inv(t) && Enabled(t, Exit(p))
    ensures PidInv(Do(t, Exit(p)))
  {
    var t' := Do(t, Exit(p));
    forall q | 0 <= q < |t.procs| ensures PidOk(t', q) {
      ExitedAt(t.procs, p, t.init, q);
      assert PidOk(t, q);
    }
    forall q, r | 0 <= q < |t.procs| && 0 <= r < |t.procs| ensures PidsDiffer(t', q, r) {
      ExitedAt(t.procs, p, t.init, q);
      ExitedAt(t.procs, p, t.init, r);
      assert PidsDiffer(t, q, r);
    }
    forall pid | pid in t.born ensures BornOk(t', pid) {
      assert BornOk(t, pid);
      if q :| InTable(t, pid, q) {
        ExitedAt(t.procs, p, t.init, q);
        assert InTable(t', pid, q);
      }
    }
  }

  // ---------------------------------------------------------------- the other steps

  /** Steps that change one slot, or only wake sleepers. */
  predicate Simple(e: Step) {
    !e.Exit?
  }

  lemma ParentKept(t: Table, e: Step, q: nat)
    requires Inv(t) && Enabled(t, e) && Simple(e) && q < |t.procs|
    ensures |Do(t, e).procs| == |t.procs| && ParentOk(Do(t, e), q)
  {
    if InFork(e) {
      ParentKeptInFork(t, e, q);
    } else if e.WaitReap? {
      ParentKeptByReap(t, e, q);
    } else {
      ParentKeptElsewhere(t, e, q);
    }
  }

  predicate InFork(e: Step) {
    e.ForkAlloc? || e.ForkFail? || e.ForkParent? || e.ForkRun?
  }

  lemma ParentKeptInFork(t: Table, e: Step, q: nat)
    requires Inv(t) && Enabled(t, e) && InFork(e) && q < |t.procs|
    ensures |Do(t, e).procs| == |t.procs| && ParentOk(Do(t, e), q)
  {
    assert ParentOk(t, q) && SlotOk(t, q) && ParentOk(t, t.init);
    if !e.ForkAlloc? {
      assert SlotOk(t, e.q) && ForkOk(t, e.q);
    }
  }

  lemma ParentKeptByReap(t: Table, e: Step, q: nat)
    requires Inv(t) && Enabled(t, e) && e.WaitReap? && q < |t.procs|
    ensures |Do(t, e).procs| == |t.procs| && ParentOk(Do(t, e), q)
  {
    assert ParentOk(t, q) && SlotOk(t, q) && ParentOk(t, t.init) && ParentOk(t, e.q);
  }

  lemma ParentKeptElsewhere(t: Table, e: Step, q: nat)
    requires Inv(t) && Enabled(t, e) && Simple(e) && !InFork(e) && !e.WaitReap? && q < |t.procs|
    ensures |Do(t, e).procs| == |t.procs| && ParentOk(Do(t, e), q)
  {
    assert ParentOk(t, q) && SlotOk(t, q) && ParentOk(t, t.init);
  }

  lemma SlotKept(t: Table, e: Step, q: nat)
    requires Inv(t) && Enabled(t, e) && Simple(e) && q < |t.procs|
    ensures |Do(t, e).procs| == |t.procs| && SlotOk(Do(t, e), q)
  {
    assert SlotOk(t, q) && ParentOk(t, q);
  }

  lemma ForkKept(t: Table, e: Step, q: nat)
    requires Inv(t) && Enabled(t, e) && Simple(e) && q in Do(t, e).forks
    ensures ForkOk(Do(t, e), q)
  {
    assert q in t.forks ==> ForkOk(t, q);
    if e.WaitReap? || e.ForkFail? || e.ForkRun? {
      assert SlotOk(t, e.q);
    }
  }

  lemma WaitKept(t: Table, e: Step, p: nat)
    requires Inv(t) && Enabled(t, e) && Simple(e) && p < |t.procs|
    ensures |Do(t, e).procs| == |t.procs| && WaitOk(Do(t, e), p)
  {
    var t' := Do(t, e);
    assert WaitOk(t, p);
    if t'.procs[p].state == Sleeping(OnProc(p)) {
      forall q | 0 <= q < |t.procs| ensures !ZombieChild(t'.procs, p, q) {
        assert !ZombieChild(t.procs, p, q);
        assert SlotOk(t, q);
      }
    }
  }

  lemma PidKeptAt(t: Table, e: Step, q: nat)
    requires Inv(t) && Enabled(t, e) && Simple(e) && q < |t.procs|
    ensures |Do(t, e).procs| == |t.procs| && PidOk(Do(t, e), q)
  {
    assert PidOk(t, q) && SlotOk(t, q);
    if e.WaitReap? {
      assert PidsDiffer(t, q, e.q) && PidOk(t, e.q);
    }
  }

  lemma PidsStayDifferent(t: Table, e: Step, q: nat, r: nat)
    requires Inv(t) && Enabled(t, e) && Simple(e) && q < |t.procs| && r < |t.procs|
    ensures |Do(t, e).procs| == |t.procs| && PidsDiffer(Do(t, e), q, r)
  {
    assert PidsDiffer(t, q, r) && PidOk(t, q) && PidOk(t, r) && SlotOk(t, q) && SlotOk(t, r);
  }

  lemma PidKept(t: Table, e: Step)
    requires Inv(t) && Enabled(t, e) && Simple(e)
    ensures PidInv(Do(t, e))
  {
    var t' := Do(t, e);
    forall q | 0 <= q < |t.procs| ensures |t'.procs| == |t.procs| && PidOk(t', q) {
      PidKeptAt(t, e, q);
    }
    forall q, r | 0 <= q < |t.procs| && 0 <= r < |t.procs| ensures |t'.procs| == |t.procs| && PidsDiffer(t', q, r) {
      PidsStayDifferent(t, e, q, r);
    }
    forall pid | pid in t'.born ensures BornOk(t', pid) {
      BornKept(t, e, pid);
    }
    if e.WaitReap? {
      assert PidOk(t, e.q);
    }
  }

  lemma BornKept(t: Table, e: Step, pid: nat)
    requires Inv(t) && Enabled(t, e) && Simple(e) && pid in Do(t, e).born
    ensures BornOk(Do(t, e), pid)
  {
    var t' := Do(t, e);
    if e.ForkRun? && pid == t.procs[e.q].pid {
      assert PidOk(t, e.q);
      assert InTable(t', pid, e.q);
    } else {
      assert BornOk(t, pid);
      if q :| InTable(t, pid, q) {
        assert SlotOk(t, q);
        if e.WaitReap? && e.q == q {
          assert pid in t'.freed;
        } else {
          assert InTable(t', pid, q);
        }
      }
    }
  }

  lemma StepKeepsInv(t: Table, e: Step)
    requires Inv(t) && Enabled(t, e)
    ensures Inv(Do(t, e))
  {
    if e.Exit? {
      ExitKeeps(t, e.p);
    } else {
      var t' := Do(t, e);
      forall q | 0 <= q < |t.procs| ensures ParentOk(t', q) && SlotOk(t', q) && WaitOk(t', q) {
        ParentKept(t, e, q);
        SlotKept(t, e, q);
        WaitKept(t, e, q);
      }
      forall q | q in t'.forks ensures ForkOk(t', q) {
        ForkKept(t, e, q);
      }
      PidKept(t, e);
    }
  }

  lemma {:induction false} ReachesInv(t: Table, es: seq<Step>, u: Table)
    requires Inv(t) && Reaches(t, es, u)
    ensures Inv(u)
    decreases |es|
  {
    if es != [] {
      StepKeepsInv(t, es[0]);
      ReachesInv(Do(t, es[0]), es[1..], u);
    }
  }

  // ---------------------------------------------------------------- the life of a process

  /** The step makes a sleeper on channel c runnable: a wakeup on c, a kill of it, or an exit it waits for. */
  ghost predicate Wakes(t: Table, e: Step, q: nat, c: Chan) {
    match e
    case Wakeup(x) => c == Other(x)
    case Kill(_, r) => r == q
    case Exit(p) =>
      || (p < |t.procs| && t.procs[p].parent.Some? && c == OnProc(t.procs[p].parent.value))
      || (c == OnProc(t.init) && HasZombie(t.procs, p))
    case _ => false
  }

  /**
    A slot changes state only along the life of a process, and each change has its one kind of step: taken by
    fork, given back or started by it, picked by the scheduler, put to sleep or back by itself, woken, dead
    by its own exit, and freed by its parent's wait.
   */
  lemma Lifecycle(t: Table, e: Step, q: nat)
    requires Inv(t) && Enabled(t, e) && q < |t.procs|
    ensures |Do(t, e).procs| == |t.procs|
    ensures var s, s' := t.procs[q].state, Do(t, e).procs[q].state;
      && (s == Unused ==> s' == if e.ForkAlloc? && e.q == q then Embryo else Unused)
      && (s == Embryo ==> s' == if e == ForkFail(q) then Unused else if e == ForkRun(q) then Runnable else Embryo)
      && (s == Runnable ==> s' == if e == Run(q) then Running else Runnable)
      && (s.Sleeping? ==> s' == if Wakes(t, e, q, s.chan) then Runnable else s)
      && (s == Zombie ==> s' == if e.WaitReap? && e.q == q then Unused else Zombie)
  {
    assert SlotOk(t, q) && ParentOk(t, q);
    if e.Exit? {
      ExitedAt(t.procs, e.p, t.init, q);
    }
  }

  /** And a running process leaves the processor only by its own doing. */
  lemma LifecycleRunning(t: Table, e: Step, q: nat)
    requires Inv(t) && Enabled(t, e) && q < |t.procs| && t.procs[q].state == Running
    ensures |Do(t, e).procs| == |t.procs|
    ensures Do(t, e).procs[q].state ==
      match e
      case Exit(p) => if p == q then Zombie else Running
      case WaitSleep(p) => if p == q then Sleeping(OnProc(q)) else Running
      case Sleep(p, x) => if p == q then Sleeping(Other(x)) else Running
      case Yield(p) => if p == q then Runnable else Running
      case _ => Running
  {
    assert SlotOk(t, q);
    if e.Exit? {
      ExitedAt(t.procs, e.p, t.init, q);
    }
  }

  /**
    Pids are given by fork, each larger than all before, and taken away by wait; parents are given by fork,
    changed to init by the parent's exit and taken away by wait; only kill marks a process, and only wait
    removes the mark.
   */
  lemma Identity(t: Table, e: Step, q: nat)
    requires Inv(t) && Enabled(t, e) && q < |t.procs|
    ensures |Do(t, e).procs| == |t.procs|
    ensures var pr, pr' := t.procs[q], Do(t, e).procs[q];
      && pr'.pid == (if e.ForkAlloc? && e.q == q then t.nextpid else if e.WaitReap? && e.q == q then 0 else pr.pid)
      && (forall r :: 0 <= r < |t.procs| ==> t.procs[r].pid < t.nextpid)
      && pr'.parent == (
        if e == ForkParent(q) then Some(t.forks[q].forker)
        else if e.Exit? && pr.parent == Some(e.p) then Some(t.init)
        else if e.WaitReap? && e.q == q then None
        else pr.parent)
      && pr'.killed == (if e.Kill? && e.q == q then true else if e.WaitReap? && e.q == q then false else pr.killed)
  {
    forall r | 0 <= r < |t.procs| ensures t.procs[r].pid < t.nextpid {
      assert PidOk(t, r);
    }
    if e.Exit? {
      ExitedAt(t.procs, e.p, t.init, q);
    }
  }

  // ---------------------------------------------------------------- what holds in every run

  /** A started process other than init has a parent that is live and no zombie, also once it is a zombie. */
  lemma EveryProcessHasLiveParent(t: Table, es: seq<Step>, u: Table, q: nat)
    requires Init(t) && Reaches(t, es, u) && q < |u.procs| && q != u.init
    requires Live(u.procs[q].state) || u.procs[q].state == Zombie
    ensures u.procs[q].parent.Some? && u.procs[q].parent.value < |u.procs|
    ensures u.procs[q].parent.value != q && Live(u.procs[u.procs[q].parent.value].state)
  {
    InitInv(t);
    ReachesInv(t, es, u);
    assert ParentOk(u, q);
  }

  /** Between holds of the lock, nobody sleeps in wait while it has a zombie child. */
  lemma NoParentSleepsOnZombie(t: Table, es: seq<Step>, u: Table, p: nat, q: nat)
    requires Init(t) && Reaches(t, es, u) && p < |u.procs| && ZombieChild(u.procs, p, q)
    ensures u.procs[p].state != Sleeping(OnProc(p))
  {
    InitInv(t);
    ReachesInv(t, es, u);
    assert WaitOk(u, p);
  }

  /** Each process that started is either still in the table, not freed, in one slot, or gone and freed exactly once. */
  lemma FreedExactlyOnce(t: Table, es: seq<Step>, u: Table, pid: nat)
    requires Init(t) && Reaches(t, es, u) && pid in u.born
    ensures pid in u.freed <==> !exists q :: InTable(u, pid, q)
    ensures multiset(u.freed)[pid] <= 1
    ensures forall q, r :: InTable(u, pid, q) && InTable(u, pid, r) ==> q == r
  {
    InitInv(t);
    ReachesInv(t, es, u);
    assert BornOk(u, pid);
    forall q: nat | InTable(u, pid, q) ensures pid !in u.freed {
      assert PidOk(u, q);
    }
    forall q: nat, r: nat | InTable(u, pid, q) && InTable(u, pid, r) ensures q == r {
      assert PidsDiffer(u, q, r);
    }
    DistinctCount(u.freed, pid);
  }

  lemma {:induction false} DistinctCount(s: seq<nat>, x: nat)
    requires Distinct(s)
    ensures multiset(s)[x] <= 1
  {
    if s != [] {
      var n := |s| - 1;
      assert s == s[..n] + [s[n]];
      DistinctCount(s[..n], x);
      assert s[n] !in s[..n];
    }
  }
}
