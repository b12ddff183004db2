/**
  What the log makes durable, over whole histories: every home block that a commit covers, and that recovery
  restores, is the data last written into it before the header write, or what it was before.

  A history is a run with all its states: `trace[k]` is the state before step k.
 */
module LogHistory {
  import opened RedoLog
  import opened LogProtocol

  ghost predicate History(g: Geometry, steps: seq<Step>, trace: seq<State>) {
    && |trace| == |steps| + 1 && Init(g, trace[0])
    && (forall k :: 0 <= k < |steps| ==> Next(g, trace[k], steps[k], trace[k + 1]))
    && (Roomy(g) || forall k :: 0 <= k < |trace| ==> |trace[k].lh| < g.size)
  }

  lemma {:induction false} HistoryInv(g: Geometry, steps: seq<Step>, trace: seq<State>, n: nat)
    requires History(g, steps, trace) && n < |trace|
    ensures Inv(g, trace[n])
  {
    if n == 0 {
      InitInv(g, trace[0]);
    } else {
      HistoryInv(g, steps, trace, n - 1);
      HistoryStep(g, steps, trace, n - 1);
    }
  }

  lemma HistoryStep(g: Geometry, steps: seq<Step>, trace: seq<State>, k: nat)
    requires History(g, steps, trace) && k < |steps| && Inv(g, trace[k])
    ensures Inv(g, trace[k + 1])
  {
    NextInv(g, trace[k], steps[k], trace[k + 1]);
  }

  lemma NextInv(g: Geometry, s: State, step: Step, s': State)
    requires Inv(g, s) && Next(g, s, step, s') && (Roomy(g) || |s'.lh| < g.size)
    ensures Inv(g, s')
  {
    StepKeepsCore(g, s, step);
    StepKeepsInv(g, s, step);
  }

  // ---------------------------------------------------------------- what one step does to home blocks

  /** What h reads as, before and after a step. */
  ghost predicate ReadsAfter(s: State, step: Step, s': State, h: nat)
    requires h < |s.disk| && h < |s'.disk| && h < |s.committed|
  {
    && (Writes(s, step, h) ==> View(s', h) == step.data)
    && (step.Reboot? ==> View(s', h) == s.committed[h])
    && (!Writes(s, step, h) && !step.Reboot? ==> View(s', h) == View(s, h))
  }

  ghost predicate HomesThere(g: Geometry, s: State) {
    g.start <= |s.disk| && g.start <= |s.committed|
  }

  ghost predicate Moves(g: Geometry, s: State, step: Step, s': State) {
    && HomesThere(g, s) && HomesThere(g, s')
    && (forall h :: 0 <= h < g.start ==> ReadsAfter(s, step, s', h))
    && (!step.WriteHeader? ==> s'.committed == s.committed)
    && (step.WriteHeader? ==> forall h :: 0 <= h < g.start ==> s'.committed[h] == View(s, h))
  }

  lemma NextMoves(g: Geometry, s: State, step: Step, s': State)
    requires Inv(g, s) && Inv(g, s') && Next(g, s, step, s')
    ensures Moves(g, s, step, s')
  {
    forall h | 0 <= h < g.start ensures ReadsAfter(s, step, s', h) {
      LogicalDisk(g, s, step, h);
    }
    CommitPoint(g, s, step);
  }

  ghost predicate AllMove(g: Geometry, steps: seq<Step>, trace: seq<State>) {
    && |trace| == |steps| + 1 && HomesThere(g, trace[0])
    && (forall h :: 0 <= h < g.start ==> View(trace[0], h) == trace[0].committed[h])
    && (forall k :: 0 <= k < |steps| ==> Moves(g, trace[k], steps[k], trace[k + 1]))
  }

  lemma HistoryMoves(g: Geometry, steps: seq<Step>, trace: seq<State>)
    requires History(g, steps, trace)
    ensures AllMove(g, steps, trace)
  {
    InitInv(g, trace[0]);
    forall h | 0 <= h < g.start ensures View(trace[0], h) == trace[0].committed[h] {
      ViewOfSettled(g, trace[0], h);
    }
    forall k | 0 <= k < |steps| ensures Moves(g, trace[k], steps[k], trace[k + 1]) {
      HistoryInv(g, steps, trace, k);
      HistoryInv(g, steps, trace, k + 1);
      NextMoves(g, trace[k], steps[k], trace[k + 1]);
    }
  }

  // ---------------------------------------------------------------- what blocks read as

  /** Nothing is written into block h, and nothing crashes, from step a up to step b. */
  ghost predicate Quiet(steps: seq<Step>, trace: seq<State>, a: nat, b: nat, h: nat)
    requires b <= |steps| < |trace|
  {
    forall k :: a <= k < b ==> !Writes(trace[k], steps[k], h) && !steps[k].Reboot?
  }

  predicate NoCommit(steps: seq<Step>, a: nat, b: nat)
    requires b <= |steps|
  {
    forall k :: a <= k < b ==> !steps[k].WriteHeader?
  }

  lemma {:induction false} ReadsTheSame(g: Geometry, steps: seq<Step>, trace: seq<State>, a: nat, b: nat, h: nat)
    requires AllMove(g, steps, trace) && a <= b <= |steps| && h < g.start && Quiet(steps, trace, a, b, h)
    ensures HomesThere(g, trace[a]) && HomesThere(g, trace[b]) && View(trace[b], h) == View(trace[a], h)
    decreases b
  {
    if a < b {
      assert Moves(g, trace[b - 1], steps[b - 1], trace[b]) && ReadsAfter(trace[b - 1], steps[b - 1], trace[b], h);
      ReadsTheSame(g, steps, trace, a, b - 1, h);
    } else if a > 0 {
      assert Moves(g, trace[a - 1], steps[a - 1], trace[a]);
    }
  }

  lemma WrittenReads(g: Geometry, steps: seq<Step>, trace: seq<State>, k: nat, n: nat, h: nat)
    requires AllMove(g, steps, trace) && k < n <= |steps| && h < g.start
    requires Writes(trace[k], steps[k], h) && Quiet(steps, trace, k + 1, n, h)
    ensures HomesThere(g, trace[n]) && View(trace[n], h) == steps[k].data
  {
    assert Moves(g, trace[k], steps[k], trace[k + 1]) && ReadsAfter(trace[k], steps[k], trace[k + 1], h);
    ReadsTheSame(g, steps, trace, k + 1, n, h);
  }

  /** A block reads as the data last written into it, as long as nothing crashes. */
  lemma ReadsLastWrite(g: Geometry, steps: seq<Step>, trace: seq<State>, k: nat, n: nat, h: nat)
    requires History(g, steps, trace) && k < n <= |steps| && h < g.start
    requires Writes(trace[k], steps[k], h) && Quiet(steps, trace, k + 1, n, h)
    ensures h < |trace[n].disk| && View(trace[n], h) == steps[k].data
  {
    HistoryMoves(g, steps, trace);
    WrittenReads(g, steps, trace, k, n, h);
  }

  /** Boot, a commit point or a reboot. */
  predicate Settles(steps: seq<Step>, k: nat)
    requires k <= |steps|
  {
    k == 0 || steps[k - 1].Reboot? || steps[k - 1].WriteHeader?
  }

  lemma SettledReads(g: Geometry, steps: seq<Step>, trace: seq<State>, k: nat, n: nat, h: nat)
    requires AllMove(g, steps, trace) && k <= n <= |steps| && h < g.start
    requires Settles(steps, k) && Quiet(steps, trace, k, n, h)
    ensures HomesThere(g, trace[n]) && HomesThere(g, trace[k]) && View(trace[n], h) == trace[k].committed[h]
  {
    ReadsTheSame(g, steps, trace, k, n, h);
    if k > 0 {
      assert Moves(g, trace[k - 1], steps[k - 1], trace[k]) && ReadsAfter(trace[k - 1], steps[k - 1], trace[k], h);
    }
  }

  /** There a block reads as at the commit point; so it does from there on until it is written. */
  lemma ReadsAsCommitted(g: Geometry, steps: seq<Step>, trace: seq<State>, k: nat, n: nat, h: nat)
    requires History(g, steps, trace) && k <= n <= |steps| && h < g.start
    requires Settles(steps, k) && Quiet(steps, trace, k, n, h)
    ensures h < |trace[n].disk| && h < |trace[k].committed| && View(trace[n], h) == trace[k].committed[h]
  {
    HistoryMoves(g, steps, trace);
    SettledReads(g, steps, trace, k, n, h);
  }

  // ---------------------------------------------------------------- what recovery finds

  lemma {:induction false} CommittedStays(g: Geometry, steps: seq<Step>, trace: seq<State>, a: nat, b: nat)
    requires AllMove(g, steps, trace) && a <= b <= |steps| && NoCommit(steps, a, b)
    ensures trace[b].committed == trace[a].committed
    decreases b
  {
    if a < b {
      CommittedStays(g, steps, trace, a, b - 1);
      assert Moves(g, trace[b - 1], steps[b - 1], trace[b]);
    }
  }

  /** Until the next header write, recovery gives what the blocks read as at header write c. */
  lemma DurableView(g: Geometry, steps: seq<Step>, trace: seq<State>, c: nat, n: nat, h: nat, ks: seq<nat>)
    requires History(g, steps, trace) && c < n <= |steps| && h < g.start
    requires steps[c].WriteHeader? && NoCommit(steps, c + 1, n)
    ensures h < |trace[n].committed| && h < |trace[c].disk| && trace[n].committed[h] == View(trace[c], h)
    ensures DiskOk(g, trace[n].disk) && h < |trace[n].disk| && Rebooted(g, trace[n].disk, ks)[h] == View(trace[c], h)
  {
    HistoryMoves(g, steps, trace);
    assert Moves(g, trace[c], steps[c], trace[c + 1]);
    CommittedStays(g, steps, trace, c + 1, n);
    HistoryInv(g, steps, trace, n);
    RebootedHomes(g, trace[n], ks);
  }

  /**
    Durability: once header write c has landed, and until the next, recovery, itself interrupted any number of
    times, finds in block h the data that step k wrote there, if that was the last write to h before the
    header write and nothing crashed in between.
   */
  lemma WriteIsDurable(g: Geometry, steps: seq<Step>, trace: seq<State>, k: nat, c: nat, n: nat, h: nat, ks: seq<nat>)
    requires History(g, steps, trace) && k < c < n <= |steps| && h < g.start
    requires steps[c].WriteHeader? && NoCommit(steps, c + 1, n)
    requires Writes(trace[k], steps[k], h) && Quiet(steps, trace, k + 1, c, h)
    ensures h < |trace[n].committed| && trace[n].committed[h] == steps[k].data
    ensures DiskOk(g, trace[n].disk) && h < |trace[n].disk| && Rebooted(g, trace[n].disk, ks)[h] == steps[k].data
  {
    ReadsLastWrite(g, steps, trace, k, c, h);
    DurableView(g, steps, trace, c, n, h, ks);
  }

  /** And what the block was at the commit point before, if it was not written since that or since a later crash. */
  lemma OthersAreKept(g: Geometry, steps: seq<Step>, trace: seq<State>, k: nat, c: nat, n: nat, h: nat, ks: seq<nat>)
    requires History(g, steps, trace) && k <= c < n <= |steps| && h < g.start
    requires steps[c].WriteHeader? && NoCommit(steps, c + 1, n)
    requires Settles(steps, k) && Quiet(steps, trace, k, c, h)
    ensures h < |trace[n].committed| && h < |trace[k].committed| && trace[n].committed[h] == trace[k].committed[h]
    ensures DiskOk(g, trace[n].disk) && h < |trace[n].disk|
    ensures Rebooted(g, trace[n].disk, ks)[h] == trace[k].committed[h]
  {
    ReadsAsCommitted(g, steps, trace, k, c, h);
    DurableView(g, steps, trace, c, n, h, ks);
  }

  /** One of the two is the case for every block at every header write. */
  lemma {:induction false} SomeCause(steps: seq<Step>, trace: seq<State>, c: nat, h: nat) returns (k: nat)
    requires c <= |steps| < |trace|
    ensures k <= c && Quiet(steps, trace, k, c, h)
    ensures Settles(steps, k) || (k > 0 && Writes(trace[k - 1], steps[k - 1], h))
  {
    if c == 0 || Writes(trace[c - 1], steps[c - 1], h) || steps[c - 1].Reboot? {
      k := c;
    } else {
      k := SomeCause(steps, trace, c - 1, h);
    }
  }

  /** Before the first header write recovery gives the home blocks the history began with. */
  lemma NothingYetDurable(g: Geometry, steps: seq<Step>, trace: seq<State>, n: nat, h: nat, ks: seq<nat>)
    requires History(g, steps, trace) && n <= |steps| && h < g.start && NoCommit(steps, 0, n)
    ensures DiskOk(g, trace[n].disk) && h < |trace[n].disk| && h < |trace[0].disk|
    ensures Rebooted(g, trace[n].disk, ks)[h] == trace[0].disk[h]
  {
    HistoryMoves(g, steps, trace);
    CommittedStays(g, steps, trace, 0, n);
    HistoryInv(g, steps, trace, n);
    RebootedHomes(g, trace[n], ks);
  }
}
