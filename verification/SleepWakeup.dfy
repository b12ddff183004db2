/**
  Sleep and wakeup (xv6/proc.c, xv6/spinlock.c) for any number of processes, locks and channels, as a
  state machine whose steps are the lock operations, the marking as asleep, each round of the wakeup
  scan, kill, yield and the scheduler.

  A channel's condition is data guarded by one lock; what matters of it is whether it is true. A process
  that makes a condition true owes a wakeup on its channel, to be run some time later, with or without
  the lock. A sleeper tests the condition under the lock and, once woken, takes the lock and tests again.
 */
module SleepWakeup {

  // ptable.lock
  const PTABLE := 0

  datatype Holder = Nobody | Scheduler | By(p: nat)

  datatype RunState = Running | Runnable | Sleeping(chan: nat)

  /** Where a process is in the code of sleep, wakeup and yield. */
  datatype Pc =
    | Free                            // holds no lock
    | Crit(l: nat)                    // holds lock l
    | Enter(c: nat)                   // in sleep, holds the lock of c, about to take ptable.lock
    | Both(c: nat)                    // holds ptable.lock and the lock of c
    | Mark(c: nat)                    // holds ptable.lock, about to be marked asleep
    | Slept(c: nat)                   // inside sched
    | Back(c: nat)                    // runs again, with ptable.lock from the scheduler
    | Relock(c: nat)                  // about to take the lock of c again
    | Wake(c: nat, back: Pc)          // in wakeup, about to take ptable.lock
    | Scan(c: nat, k: nat, back: Pc)  // in wakeup1, holds ptable.lock
    | Yielded                         // in yield, inside sched
    | YieldBack                       // in yield, runs again

  /** `owes`: the channels whose wakeup this process has yet to finish. */
  datatype Proc = Proc(pc: Pc, run: RunState, owes: set<nat>)

  /** `guard[c]` is the lock of channel c; `ready[c]` the truth of its condition. */
  datatype State = State(locks: seq<Holder>, guard: seq<nat>, ready: seq<bool>, procs: seq<Proc>)

  datatype Step =
    | Acquire(p: nat, l: nat)
    | Release(p: nat)
    | Change(p: nat, ready: seq<bool>)
    | TestFails(p: nat, c: nat)
    | LockTable(p: nat)
    | ReleaseLk(p: nat)
    | GoToSleep(p: nat)
    | TidyUp(p: nat)
    | Reacquire(p: nat)
    | CallWakeup(p: nat, c: nat)
    | StartScan(p: nat)
    | ScanNext(p: nat)
    | EndScan(p: nat)
    | Yield(p: nat)
    | EndYield(p: nat)
    | Kill(p: nat)
    | SchedLock
    | SchedRun(p: nat)
    | SchedUnlock

  // ---------------------------------------------------------------- steps

  predicate Shape(s: State) {
    && |s.locks| > PTABLE && |s.ready| == |s.guard|
    && (forall c :: 0 <= c < |s.guard| ==> s.guard[c] < |s.locks|)
  }

  function At(s: State, p: nat): Pc
    requires p < |s.procs|
  {
    s.procs[p].pc
  }

  predicate Runs(s: State, p: nat) {
    p < |s.procs| && s.procs[p].run == Running
  }

  predicate Enabled(s: State, e: Step)
    requires Shape(s)
  {
    match e
    case Acquire(p, l) => Runs(s, p) && At(s, p) == Free && l < |s.locks| && s.locks[l] == Nobody
    case Release(p) => Runs(s, p) && At(s, p).Crit? && At(s, p).l < |s.locks|
    case Change(p, ready) =>
      && Runs(s, p) && At(s, p).Crit? && |ready| == |s.ready|
      && forall c :: 0 <= c < |ready| && s.guard[c] != At(s, p).l ==> ready[c] == s.ready[c]
    case TestFails(p, c) => Runs(s, p) && c < |s.guard| && At(s, p) == Crit(s.guard[c]) && !s.ready[c]
    case LockTable(p) => Runs(s, p) && At(s, p).Enter? && s.locks[PTABLE] == Nobody
    case ReleaseLk(p) => Runs(s, p) && At(s, p).Both? && At(s, p).c < |s.guard|
    case GoToSleep(p) => Runs(s, p) && At(s, p).Mark?
    case TidyUp(p) => Runs(s, p) && At(s, p).Back? && At(s, p).c < |s.guard|
    case Reacquire(p) =>
      Runs(s, p) && At(s, p).Relock? && At(s, p).c < |s.guard| && s.locks[s.guard[At(s, p).c]] == Nobody
    case CallWakeup(p, c) => Runs(s, p) && (At(s, p).Free? || At(s, p).Crit?)
    case StartScan(p) => Runs(s, p) && At(s, p).Wake? && s.locks[PTABLE] == Nobody
    case ScanNext(p) => Runs(s, p) && At(s, p).Scan? && At(s, p).k < |s.procs|
    case EndScan(p) => Runs(s, p) && At(s, p).Scan? && At(s, p).k == |s.procs|
    case Yield(p) => Runs(s, p) && At(s, p) == Free && s.locks[PTABLE] == Nobody
    case EndYield(p) => Runs(s, p) && At(s, p) == YieldBack
    case Kill(p) => p < |s.procs| && s.locks[PTABLE] == Nobody
    case SchedLock => s.locks[PTABLE] == Nobody
    case SchedRun(p) => p < |s.procs| && s.procs[p].run == Runnable && s.locks[PTABLE] == Scheduler
    case SchedUnlock => s.locks[PTABLE] == Scheduler
  }

  function Put(s: State, p: nat, pr: Proc): State
    requires p < |s.procs|
  {
    s.(procs := s.procs[p := pr])
  }

  function Goto(s: State, p: nat, pc: Pc): State
    requires p < |s.procs|
  {
    Put(s, p, s.procs[p].(pc := pc))
  }

  function SetLock(s: State, l: nat, h: Holder): State
    requires l < |s.locks|
  {
    s.(locks := s.locks[l := h])
  }

  /** Channels of which the condition became true. */
  function Raised(before: seq<bool>, after: seq<bool>): set<nat>
    requires |after| == |before|
  {
    set c: nat | c < |after| && after[c] && !before[c]
  }

  function Awake(r: RunState, c: nat): RunState {
    if r == Sleeping(c) then Runnable else r
  }

  function Do(s: State, e: Step): State
    requires Shape(s) && Enabled(s, e)
  {
    match e
    case Acquire(p, l) => Goto(SetLock(s, l, By(p)), p, Crit(l))
    case Release(p) => Goto(SetLock(s, At(s, p).l, Nobody), p, Free)
    case Change(p, ready) =>
      Put(s.(ready := ready), p, s.procs[p].(owes := s.procs[p].owes + Raised(s.ready, ready)))
    case TestFails(p, c) => Goto(s, p, if s.guard[c] == PTABLE then Mark(c) else Enter(c))
    case LockTable(p) => Goto(SetLock(s, PTABLE, By(p)), p, Both(At(s, p).c))
    case ReleaseLk(p) => Goto(SetLock(s, s.guard[At(s, p).c], Nobody), p, Mark(At(s, p).c))
    case GoToSleep(p) =>
      var c := At(s, p).c;
      Put(SetLock(s, PTABLE, Scheduler), p, s.procs[p].(pc := Slept(c), run := Sleeping(c)))
    case TidyUp(p) =>
      var c := At(s, p).c;
      if s.guard[c] == PTABLE then Goto(s, p, Crit(PTABLE))
      else Goto(SetLock(s, PTABLE, Nobody), p, Relock(c))
    case Reacquire(p) =>
      var l := s.guard[At(s, p).c];
      Goto(SetLock(s, l, By(p)), p, Crit(l))
    case CallWakeup(p, c) =>
      Goto(s, p, if At(s, p) == Crit(PTABLE) then Scan(c, 0, At(s, p)) else Wake(c, At(s, p)))
    case StartScan(p) => Goto(SetLock(s, PTABLE, By(p)), p, Scan(At(s, p).c, 0, At(s, p).back))
    case ScanNext(p) =>
      var Scan(c, k, back) := At(s, p);
      Goto(Put(s, k, s.procs[k].(run := Awake(s.procs[k].run, c))), p, Scan(c, k + 1, back))
    case EndScan(p) =>
      var Scan(c, k, back) := At(s, p);
      var s' := if back == Crit(PTABLE) then s else SetLock(s, PTABLE, Nobody);
      Put(s', p, s.procs[p].(pc := back, owes := s.procs[p].owes - {c}))
    case Yield(p) => Put(SetLock(s, PTABLE, Scheduler), p, s.procs[p].(pc := Yielded, run := Runnable))
    case EndYield(p) => Goto(SetLock(s, PTABLE, Nobody), p, Free)
    case Kill(p) =>
      Put(s, p, s.procs[p].(run := if s.procs[p].run.Sleeping? then Runnable else s.procs[p].run))
    case SchedLock => SetLock(s, PTABLE, Scheduler)
    case SchedRun(p) =>
      var pc := match At(s, p) case Slept(c) => Back(c) case _ => YieldBack;
      Put(SetLock(s, PTABLE, By(p)), p, s.procs[p].(pc := pc, run := Running))
    case SchedUnlock => SetLock(s, PTABLE, Nobody)
  }

  /** All processes run their own code, nobody holds a lock or owes a wakeup; conditions are arbitrary. */
  ghost predicate Init(s: State) {
    && Shape(s)
    && (forall l :: 0 <= l < |s.locks| ==> s.locks[l] == Nobody)
    && (forall p :: 0 <= p < |s.procs| ==> s.procs[p] == Proc(Free, Running, {}))
  }

  ghost predicate Reaches(s: State, es: seq<Step>, t: State)
    requires Shape(s)
    decreases |es|
  {
    if es == [] then t == s
    else Enabled(s, es[0]) && (ShapeKept(s, es[0]); Reaches(Do(s, es[0]), es[1..], t))
  }

  lemma ShapeKept(s: State, e: Step)
    requires Shape(s) && Enabled(s, e)
    ensures Shape(Do(s, e)) && |Do(s, e).procs| == |s.procs| && Do(s, e).guard == s.guard
  {
  }

  // ---------------------------------------------------------------- the invariant

  /** Whether a process at pc holds lock l. */
  predicate Holds(guard: seq<nat>, pc: Pc, l: nat) {
    match pc
    case Free => false
    case Crit(m) => l == m
    case Enter(c) => c < |guard| && l == guard[c]
    case Both(c) => l == PTABLE || (c < |guard| && l == guard[c])
    case Mark(_) => l == PTABLE
    case Slept(_) => false
    case Back(_) => l == PTABLE
    case Relock(_) => false
    case Wake(_, back) => back == Crit(l)
    case Scan(_, _, back) => l == PTABLE || back == Crit(l)
    case Yielded => false
    case YieldBack => l == PTABLE
  }

  ghost predicate HolderOk(s: State, l: nat, p: nat)
    requires l < |s.locks| && p < |s.procs|
  {
    s.locks[l] == By(p) <==> Holds(s.guard, At(s, p), l)
  }

  /** Every lock is held by exactly the process whose position says so. */
  ghost predicate LockInv(s: State) {
    forall l, p :: 0 <= l < |s.locks| && 0 <= p < |s.procs| ==> HolderOk(s, l, p)
  }

  ghost predicate PosOk(s: State, p: nat)
    requires p < |s.procs| && |s.ready| == |s.guard|
  {
    var pr := s.procs[p];
    && (pr.pc.Crit? ==> pr.pc.l < |s.locks|)
    && (pr.pc.Enter? || pr.pc.Both? ==> pr.pc.c < |s.guard| && s.guard[pr.pc.c] != PTABLE && !s.ready[pr.pc.c])
    && (pr.pc.Mark? || pr.pc.Slept? || pr.pc.Back? || pr.pc.Relock? ==> pr.pc.c < |s.guard|)
    && (pr.pc.Wake? ==> pr.pc.back == Free || (pr.pc.back.Crit? && PTABLE != pr.pc.back.l < |s.locks|))
    && (pr.pc.Scan? ==> pr.pc.k <= |s.procs| && (pr.pc.back == Free || (pr.pc.back.Crit? && pr.pc.back.l < |s.locks|)))
    && (if pr.pc.Slept? then pr.run == Runnable || pr.run == Sleeping(pr.pc.c)
        else if pr.pc.Yielded? then pr.run == Runnable
        else pr.run == Running)
  }

  ghost predicate PosInv(s: State)
    requires Shape(s)
  {
    forall p :: 0 <= p < |s.procs| ==> PosOk(s, p)
  }

  /** The scan of q has passed p. */
  predicate Passed(pc: Pc, c: nat, p: nat) {
    pc.Scan? && pc.c == c && p < pc.k
  }

  ghost predicate ScanOk(s: State, q: nat, p: nat)
    requires p < |s.procs| && q < |s.procs|
  {
    At(s, q).Scan? && Passed(At(s, q), At(s, q).c, p) ==> s.procs[p].run != Sleeping(At(s, q).c)
  }

  /** Whoever a scan has passed is not asleep on its channel. */
  ghost predicate ScanInv(s: State) {
    forall p, q :: 0 <= p < |s.procs| && 0 <= q < |s.procs| ==> ScanOk(s, q, p)
  }

  /** Process q has yet to wake p, asleep on c. */
  predicate WillWake(s: State, q: nat, c: nat, p: nat) {
    q < |s.procs| && c in s.procs[q].owes && !Passed(At(s, q), c, p)
  }

  /** Asleep on c, or past the point of no return on the way there. */
  predicate Committed(s: State, p: nat, c: nat) {
    && p < |s.procs|
    && (At(s, p) == Enter(c) || At(s, p) == Both(c) || At(s, p) == Mark(c) || s.procs[p].run == Sleeping(c))
  }

  ghost predicate Served(s: State, p: nat, c: nat) {
    Committed(s, p, c) && c < |s.ready| && s.ready[c] ==> exists q :: !Committed(s, q, c) && WillWake(s, q, c, p)
  }

  ghost predicate WakeInv(s: State) {
    forall p, c :: Served(s, p, c)
  }

  ghost predicate Inv(s: State) {
    Shape(s) && LockInv(s) && PosInv(s) && ScanInv(s) && WakeInv(s)
  }

  lemma InitInv(s: State)
    requires Init(s)
    ensures Inv(s)
  {
  }

  // ---------------------------------------------------------------- who runs, sleeps and is woken

  /**
    A process falls asleep only by its own sleep, on that channel, and runs only when the scheduler picks it. It is
    woken only by a kill or by a scan for the channel it sleeps on that comes to it. What it owes is
    settled only by a scan it has finished.
   */
  lemma RunStates(s: State, e: Step, q: nat, c: nat)
    requires Inv(s) && Enabled(s, e) && q < |s.procs|
    ensures |Do(s, e).procs| == |s.procs|
    ensures var r, r' := s.procs[q].run, Do(s, e).procs[q].run;
      && (r == Running ==>
        r' == if e == GoToSleep(q) then Sleeping(At(s, q).c) else if e == Yield(q) then Runnable else Running)
      && (r == Runnable ==> r' == if e == SchedRun(q) then Running else Runnable)
      && (r == Sleeping(c) ==>
        r' == if e == Kill(q) || (e.ScanNext? && At(s, e.p).c == c && At(s, e.p).k == q) then Runnable else r)
    ensures c in s.procs[q].owes ==>
      (c !in Do(s, e).procs[q].owes <==> e == EndScan(q) && At(s, q).c == c)
  {
    assert PosOk(s, q);
    if e.ScanNext? {
      assert PosOk(s, e.p) && PosOk(s, At(s, e.p).k);
    }
  }

  // ---------------------------------------------------------------- each step keeps it

  /** Two processes never hold the same lock. */
  lemma Exclusive(s: State, l: nat, p: nat, q: nat)
    requires Inv(s) && l < |s.locks| && p < |s.procs| && q < |s.procs|
    requires Holds(s.guard, At(s, p), l) && Holds(s.guard, At(s, q), l)
    ensures p == q
  {
    assert HolderOk(s, l, p) && HolderOk(s, l, q);
  }

  /** The process that takes the step; the scheduler's and kill's steps name the one they act on. */
  function Actor(e: Step): nat {
    if e.SchedLock? || e.SchedUnlock? then 0 else e.p
  }

  lemma LockKept(s: State, e: Step)
    requires Inv(s) && Enabled(s, e)
    ensures LockInv(Do(s, e))
  {
    var s' := Do(s, e);
    ShapeKept(s, e);
    forall l, p | 0 <= l < |s'.locks| && 0 <= p < |s'.procs| ensures HolderOk(s', l, p) {
      if p == Actor(e) {
        LockKeptByActor(s, e, l);
      } else {
        LockKeptByOthers(s, e, l, p);
      }
    }
  }

  /** A step leaves every other process where it is, and at most wakes it. */
  lemma OthersStay(s: State, e: Step, p: nat)
    requires Shape(s) && Enabled(s, e) && p < |s.procs| && p != Actor(e)
    ensures |Do(s, e).procs| == |s.procs| && At(Do(s, e), p) == At(s, p) && Do(s, e).procs[p].owes == s.procs[p].owes
    ensures Do(s, e).procs[p].run == s.procs[p].run || (s.procs[p].run.Sleeping? && Do(s, e).procs[p].run == Runnable)
  {
  }

  /** A step changes a lock only from or to its own process, the scheduler or nobody. */
  lemma LocksChange(s: State, e: Step, l: nat, p: nat)
    requires Inv(s) && Enabled(s, e) && l < |s.locks| && p < |s.procs| && p != Actor(e)
    ensures |Do(s, e).locks| == |s.locks| && (Do(s, e).locks[l] == By(p) <==> s.locks[l] == By(p))
  {
    assert HolderOk(s, l, p);
    if Actor(e) < |s.procs| {
      assert HolderOk(s, l, Actor(e)) && PosOk(s, Actor(e));
    }
  }

  lemma LockKeptByOthers(s: State, e: Step, l: nat, p: nat)
    requires Inv(s) && Enabled(s, e) && l < |s.locks| && p < |s.procs| && p != Actor(e)
    ensures l < |Do(s, e).locks| && p < |Do(s, e).procs| && HolderOk(Do(s, e), l, p)
  {
    ShapeKept(s, e);
    OthersStay(s, e, p);
    LocksChange(s, e, l, p);
    assert HolderOk(s, l, p);
  }

  lemma LockKeptByActor(s: State, e: Step, l: nat)
    requires Inv(s) && Enabled(s, e) && l < |s.locks| && Actor(e) < |s.procs|
    ensures l < |Do(s, e).locks| && Actor(e) < |Do(s, e).procs| && HolderOk(Do(s, e), l, Actor(e))
  {
    if InSleep(e) {
      LockKeptInSleep(s, e, l);
    } else {
      LockKeptElsewhere(s, e, l);
    }
  }

  lemma LockKeptInSleep(s: State, e: Step, l: nat)
    requires Inv(s) && Enabled(s, e) && l < |s.locks| && InSleep(e)
    ensures l < |Do(s, e).locks| && e.p < |Do(s, e).procs| && HolderOk(Do(s, e), l, e.p)
  {
    ShapeKept(s, e);
    assert HolderOk(s, l, e.p) && PosOk(s, e.p);
  }

  lemma LockKeptElsewhere(s: State, e: Step, l: nat)
    requires Inv(s) && Enabled(s, e) && l < |s.locks| && Actor(e) < |s.procs| && !InSleep(e)
    ensures l < |Do(s, e).locks| && Actor(e) < |Do(s, e).procs| && HolderOk(Do(s, e), l, Actor(e))
  {
    ShapeKept(s, e);
    assert HolderOk(s, l, Actor(e)) && PosOk(s, Actor(e));
  }

  lemma PosKept(s: State, e: Step)
    requires Inv(s) && Enabled(s, e)
    ensures Shape(Do(s, e)) && PosInv(Do(s, e))
  {
    var s' := Do(s, e);
    ShapeKept(s, e);
    forall p | 0 <= p < |s'.procs| ensures PosOk(s', p) {
      if e.Change? {
        PosKeptByChange(s, e.p, e.ready, p);
      } else {
        PosKeptAt(s, e, p);
      }
    }
  }

  /** Whoever is about to sleep on c holds the lock of c, so nobody else changes its condition. */
  lemma PosKeptByChange(s: State, a: nat, ready: seq<bool>, p: nat)
    requires Inv(s) && Enabled(s, Change(a, ready)) && p < |s.procs|
    ensures PosOk(Do(s, Change(a, ready)), p)
  {
    assert PosOk(s, p) && PosOk(s, a);
    if (At(s, p).Enter? || At(s, p).Both?) && s.guard[At(s, p).c] == At(s, a).l {
      Exclusive(s, At(s, a).l, p, a);
    }
  }

  lemma PosKeptAt(s: State, e: Step, p: nat)
    requires Shape(s) && PosInv(s) && Enabled(s, e) && p < |s.procs| && !e.Change?
    ensures |Do(s, e).procs| == |s.procs| && Shape(Do(s, e)) && PosOk(Do(s, e), p)
  {
    ShapeKept(s, e);
    if p == Actor(e) {
      PosKeptByActor(s, e);
    } else {
      PosKeptByOthers(s, e, p);
    }
  }

  lemma PosKeptByActor(s: State, e: Step)
    requires Shape(s) && PosInv(s) && Enabled(s, e) && Actor(e) < |s.procs| && !e.Change?
    ensures |Do(s, e).procs| == |s.procs| && Shape(Do(s, e)) && PosOk(Do(s, e), Actor(e))
  {
    if InSleep(e) {
      PosKeptInSleep(s, e);
    } else if InWakeup(e) {
      PosKeptInWakeup(s, e);
    } else {
      PosKeptElsewhere(s, e);
    }
  }

  predicate InSleep(e: Step) {
    e.TestFails? || e.LockTable? || e.ReleaseLk? || e.GoToSleep? || e.TidyUp? || e.Reacquire?
  }

  lemma PosKeptInSleep(s: State, e: Step)
    requires Shape(s) && PosInv(s) && Enabled(s, e) && InSleep(e)
    ensures |Do(s, e).procs| == |s.procs| && Shape(Do(s, e)) && PosOk(Do(s, e), e.p)
  {
    ShapeKept(s, e);
    assert PosOk(s, e.p);
  }

  predicate InWakeup(e: Step) {
    e.CallWakeup? || e.StartScan? || e.ScanNext? || e.EndScan?
  }

  lemma PosKeptInWakeup(s: State, e: Step)
    requires Shape(s) && PosInv(s) && Enabled(s, e) && InWakeup(e)
    ensures |Do(s, e).procs| == |s.procs| && Shape(Do(s, e)) && PosOk(Do(s, e), e.p)
  {
    ShapeKept(s, e);
    assert PosOk(s, e.p);
  }

  lemma PosKeptElsewhere(s: State, e: Step)
    requires Shape(s) && PosInv(s) && Enabled(s, e) && Actor(e) < |s.procs|
    requires !InSleep(e) && !InWakeup(e) && !e.Change?
    ensures |Do(s, e).procs| == |s.procs| && Shape(Do(s, e)) && PosOk(Do(s, e), Actor(e))
  {
    ShapeKept(s, e);
    assert PosOk(s, Actor(e));
  }

  /** A step of another process at most wakes this one. */
  lemma PosKeptByOthers(s: State, e: Step, p: nat)
    requires Shape(s) && PosInv(s) && Enabled(s, e) && p < |s.procs| && p != Actor(e) && !e.Change?
    ensures |Do(s, e).procs| == |s.procs| && Shape(Do(s, e)) && PosOk(Do(s, e), p)
  {
    ShapeKept(s, e);
    OthersStay(s, e, p);
    TablesStay(s, e);
    assert PosOk(s, p);
  }

  lemma TablesStay(s: State, e: Step)
    requires Shape(s) && Enabled(s, e) && !e.Change?
    ensures |Do(s, e).locks| == |s.locks| && Do(s, e).guard == s.guard && Do(s, e).ready == s.ready
  {
  }

  lemma ScanKept(s: State, e: Step)
    requires Inv(s) && Enabled(s, e)
    ensures ScanInv(Do(s, e))
  {
    var s' := Do(s, e);
    ShapeKept(s, e);
    forall p, q | 0 <= p < |s'.procs| && 0 <= q < |s'.procs| ensures ScanOk(s', q, p) {
      ScanKeptAt(s, e, q, p);
    }
  }

  lemma ScanKeptAt(s: State, e: Step, q: nat, p: nat)
    requires Inv(s) && Enabled(s, e) && p < |s.procs| && q < |s.procs|
    ensures |Do(s, e).procs| == |s.procs| && ScanOk(Do(s, e), q, p)
  {
    ShapeKept(s, e);
    assert ScanOk(s, q, p) && PosOk(s, p) && PosOk(s, q);
    if e.GoToSleep? && At(s, q).Scan? {
      Exclusive(s, PTABLE, e.p, q);
    }
  }

  /** A sleeper that stays a sleeper keeps the process that owes it a wakeup, unless that one just finished its scan. */
  lemma WakerKept(s: State, e: Step, q: nat, c: nat, p: nat)
    requires Inv(s) && Enabled(s, e) && WillWake(s, q, c, p)
    requires !(e.EndScan? && e.p == q && At(s, q).c == c)
    requires !(e.ScanNext? && e.p == q && At(s, q).c == c && At(s, q).k == p)
    ensures WillWake(Do(s, e), q, c, p)
  {
    ShapeKept(s, e);
    assert PosOk(s, q);
  }

  lemma WakeKept(s: State, e: Step)
    requires Inv(s) && Enabled(s, e)
    ensures WakeInv(Do(s, e))
  {
    var s' := Do(s, e);
    ShapeKept(s, e);
    PosKept(s, e);
    forall p: nat, c: nat | Committed(s', p, c) && c < |s'.ready| && s'.ready[c]
      ensures exists q :: !Committed(s', q, c) && WillWake(s', q, c, p)
    {
      assert PosOk(s, p) && PosOk(s', p);
      if s.ready[c] {
        CommittedBefore(s, e, p, c);
        assert Served(s, p, c);
        var q :| !Committed(s, q, c) && WillWake(s, q, c, p);
        ScanDone(s, e, q, c, p);
        WakerKept(s, e, q, c, p);
        if Committed(s', q, c) {
          CommittedBefore(s, e, q, c);
        }
      } else {
        assert e.Change? && c in Raised(s.ready, e.ready) && PosOk(s, e.p);
        assert WillWake(s', e.p, c, p);
      }
    }
  }

  /** Nobody becomes committed to sleeping on a true condition. */
  lemma CommittedBefore(s: State, e: Step, p: nat, c: nat)
    requires Inv(s) && Enabled(s, e) && Committed(Do(s, e), p, c) && c < |s.ready| && s.ready[c]
    ensures Committed(s, p, c)
  {
    ShapeKept(s, e);
    assert PosOk(s, p);
  }

  /** When q's scan for c is over, or just reaches p, no process is left asleep on c behind it. */
  lemma ScanDone(s: State, e: Step, q: nat, c: nat, p: nat)
    requires Inv(s) && Enabled(s, e) && WillWake(s, q, c, p) && Committed(s, p, c) && Committed(Do(s, e), p, c)
    requires c < |s.ready| && s.ready[c]
    ensures !(e.EndScan? && e.p == q && At(s, q).c == c)
    ensures !(e.ScanNext? && e.p == q && At(s, q).c == c && At(s, q).k == p)
  {
    ShapeKept(s, e);
    assert PosOk(s, p) && PosOk(s, q) && ScanOk(s, q, p);
    if At(s, q).Scan? && At(s, p) == Mark(c) {
      Exclusive(s, PTABLE, p, q);
    }
  }

  /** Every step of every process keeps the invariant. */
  lemma StepKeepsInv(s: State, e: Step)
    requires Inv(s) && Enabled(s, e)
    ensures Inv(Do(s, e))
  {
    LockKept(s, e);
    PosKept(s, e);
    ScanKept(s, e);
    WakeKept(s, e);
  }

  lemma {:induction false} ReachesInv(s: State, es: seq<Step>, t: State)
    requires Inv(s) && Reaches(s, es, t)
    ensures Inv(t)
    decreases |es|
  {
    if es != [] {
      StepKeepsInv(s, es[0]);
      ReachesInv(Do(s, es[0]), es[1..], t);
    }
  }

  // ---------------------------------------------------------------- what holds in every run

  /**
    No wakeup is ever lost: in every reachable state, a process asleep or committed to sleeping on a
    true condition has a process that is not, and that has yet to run the wakeup that will reach it.
   */
  lemma NoLostWakeup(s: State, es: seq<Step>, t: State, p: nat, c: nat)
    requires Init(s) && Reaches(s, es, t)
    requires Committed(t, p, c) && c < |t.ready| && t.ready[c]
    ensures exists q :: !Committed(t, q, c) && WillWake(t, q, c, p)
  {
    InitInv(s);
    ReachesInv(s, es, t);
    assert Served(t, p, c);
  }

  /** Once every wakeup owed has been run, whoever still sleeps has a false condition. */
  lemma SleepersHaveReason(s: State, es: seq<Step>, t: State, p: nat, c: nat)
    requires Init(s) && Reaches(s, es, t) && Committed(t, p, c) && c < |t.ready|
    requires forall q :: 0 <= q < |t.procs| ==> c !in t.procs[q].owes
    ensures !t.ready[c]
  {
    if t.ready[c] {
      NoLostWakeup(s, es, t, p, c);
    }
  }

  /** A lock excludes, in every reachable state. */
  lemma MutualExclusion(s: State, es: seq<Step>, t: State, l: nat, p: nat, q: nat)
    requires Init(s) && Reaches(s, es, t) && l < |t.locks| && p < |t.procs| && q < |t.procs|
    requires Holds(t.guard, At(t, p), l) && Holds(t.guard, At(t, q), l)
    ensures p == q
  {
    InitInv(s);
    ReachesInv(s, es, t);
    Exclusive(t, l, p, q);
  }
}
