/**
  Consequences of the log protocol for whole runs: what admission guarantees, exactly when logged blocks
  can outgrow the log region, exactly when an operation within its budget runs into `log_write`'s panic,
  and exactly when `bget` finds no buffer.
 */
module LogAdmission {
  import opened Basics
  import opened RedoLog
  import opened LogProtocol

  ghost predicate Reachable(g: Geometry, s: State) {
    exists s0, steps :: Init(g, s0) && Run(g, s0, steps, s)
  }

  lemma ReachableCore(g: Geometry, s: State)
    requires Reachable(g, s)
    ensures CoreInv(g, s)
  {
    var s0, steps :| Init(g, s0) && Run(g, s0, steps, s);
    InitInv(g, s0);
    RunKeepsCore(g, s0, steps, s);
  }

  lemma ReachStep(g: Geometry, s: State, step: Step)
    requires Reachable(g, s) && Enabled(g, s, step)
    ensures Reachable(g, Do(g, s, step))
  {
    var s0, steps :| Init(g, s0) && Run(g, s0, steps, s);
    assert (steps + [step])[..|steps|] == steps;
    assert Next(g, s, step, Do(g, s, step));
    assert Run(g, s0, steps + [step], Do(g, s, step));
  }

  /**
    Admission in every reachable state, for a log of any size: a commit never runs beside an operation,
    an idle log is empty, logged block numbers are distinct home blocks, and the logged count plus
    everything outstanding operations may still add stays within LOGSIZE.
   */
  lemma Admission(g: Geometry, s: State)
    requires Reachable(g, s)
    ensures s.phase != Idle ==> s.ops == map[]
    ensures s.phase == Idle && s.ops == map[] ==> s.lh == []
    ensures DistinctHomes(g, s.lh)
    ensures |s.lh| + Unspent(s.ops) <= LOGSIZE
  {
    ReachableCore(g, s);
  }

  // ---------------------------------------------------------------- runs that fill the log

  /** Three operations with k blocks between them, taken by turns. */
  function Shares(k: nat): map<nat, nat> {
    map[0 := (k + 2) / 3, 1 := (k + 1) / 3, 2 := k / 3]
  }

  lemma SharesNext(k: nat)
    ensures Shares(k + 1) == Shares(k)[k % 3 := Shares(k)[k % 3] + 1]
    ensures k < LOGSIZE ==> Shares(k)[k % 3] < MAXOPBLOCKS
  {
    var q := k / 3;
    if k == 3 * q {
      assert (k + 2) / 3 == q && (k + 1) / 3 == q;
    } else if k == 3 * q + 1 {
      assert (k + 2) / 3 == q + 1 && (k + 1) / 3 == q;
    } else {
      assert (k + 2) / 3 == q + 1 && (k + 1) / 3 == q + 1;
    }
  }

  /** A logged block is in its buffer, dirty and released; the buffers behind are not used yet. */
  ghost predicate BufferFilled(b: Buf, i: nat, k: nat) {
    && b.holder.Unheld? && !b.touched
    && (if i < k then b.inUse && b.valid && b.dirty && b.blockno == i else !b.inUse && !b.valid && !b.dirty)
  }

  /** Three operations are open and have logged blocks 0 .. k-1 by turns. */
  ghost predicate Filled(g: Geometry, s: State, k: nat) {
    && g.Fits(s.disk) && |s.disk| == g.start + g.size && |s.bufs| == NBUF && k <= NBUF <= g.start
    && s.phase == Idle && s.passed == map[] && s.ops == Shares(k)
    && |s.lh| == k && (forall i :: 0 <= i < k ==> s.lh[i] == i)
    && (forall i :: 0 <= i < NBUF ==> BufferFilled(s.bufs[i], i, k))
  }

  function EmptyState(g: Geometry): State {
    var zero: Block := seq(BLOCK_WORDS, _ => 0);
    var disk := seq(g.start + g.size, _ => zero);
    State(disk, seq(NBUF, _ => Buf(false, 0, Unheld, false, false, false, zero)), [], map[], map[], Idle, 0, disk)
  }

  /** Enough home blocks for a full log, on a disk the kernel can address. */
  predicate Usable(g: Geometry) {
    1 <= g.size && LOGSIZE <= g.start && g.start + g.size < 0x8000_0000
  }

  lemma EmptyIsReachable(g: Geometry)
    requires Usable(g)
    ensures Reachable(g, EmptyState(g))
  {
    assert Init(g, EmptyState(g)) && Run(g, EmptyState(g), [], EmptyState(g));
  }

  lemma OpensNext(g: Geometry, s: State, p: nat) returns (s': State)
    requires Reachable(g, s) && s.phase == Idle && s.lh == [] && |s.ops| < 3 && p !in s.ops
    ensures Reachable(g, s') && s' == s.(ops := s.ops[p := 0])
  {
    ReachStep(g, s, BeginOp(p));
    s' := Do(g, s, BeginOp(p));
  }

  lemma OpenThree(g: Geometry) returns (s: State)
    requires Usable(g)
    ensures Reachable(g, s) && Filled(g, s, 0)
  {
    EmptyIsReachable(g);
    var s0 := EmptyState(g);
    var s1 := OpensNext(g, s0, 0);
    assert |s1.ops| == 1;
    var s2 := OpensNext(g, s1, 1);
    assert |s2.ops| == 2;
    s := OpensNext(g, s2, 2);
    assert s.ops == Shares(0);
  }

  /** Process p has read block k into the unused buffer k. */
  ghost predicate Loaded(s: State, s': State, p: nat, k: nat) {
    && k < |s.bufs| && k < |s.disk|
    && s' == SetBuf(s, k, Buf(true, k, HeldBy(p), true, false, false, s.disk[k]))
  }

  lemma Loads(g: Geometry, s: State, p: nat, k: nat) returns (s': State)
    requires Reachable(g, s) && p !in s.passed && !Cached(s, k) && k < |s.bufs| && k < |s.disk|
    requires s.bufs[k].holder.Unheld? && !s.bufs[k].dirty
    ensures Reachable(g, s') && Loaded(s, s', p, k)
  {
    ReachStep(g, s, GetMiss(p, k, k));
    var m := Do(g, s, GetMiss(p, k, k));
    ReachStep(g, m, Fetch(p, k));
    s' := Do(g, m, Fetch(p, k));
    assert s'.bufs == s.bufs[k := Buf(true, k, HeldBy(p), true, false, false, s.disk[k])];
  }

  lemma Tests(g: Geometry, s: State, p: nat, i: nat) returns (s': State)
    requires Reachable(g, s) && p !in s.passed && MayLog(g, s, p, i) && !LogWritePanics(g, s)
    ensures Reachable(g, s') && s' == s.(passed := s.passed[p := i])
  {
    ReachStep(g, s, TestRoom(p, i));
    s' := Do(g, s, TestRoom(p, i));
  }

  /** s' is s with the new block k, held by p in buffer k, appended to the log and the buffer released. */
  ghost predicate Appended(s: State, s': State, p: nat, k: nat) {
    && k < |s.bufs| && k < 0x8000_0000 && p in s.ops
    && s' == s.(bufs := s.bufs[k := s.bufs[k].(dirty := true, touched := false, holder := Unheld)],
                lh := s.lh + [k as Word], ops := s.ops[p := s.ops[p] + 1], passed := s.passed - {p})
  }

  /** Process p may log block k, which is in buffer k and not in the log. */
  ghost predicate MayAdd(g: Geometry, s: State, p: nat, k: nat) {
    MayLog(g, s, p, k) && s.bufs[k].blockno == k && k !in s.lh
  }

  lemma Adds(g: Geometry, s: State, p: nat, k: nat) returns (s': State)
    requires Reachable(g, s) && p in s.passed && s.passed[p] == k && MayAdd(g, s, p, k)
    ensures Reachable(g, s')
    ensures s' == s.(bufs := s.bufs[k := s.bufs[k].(dirty := true, touched := false)],
                     lh := s.lh + [k as Word], ops := s.ops[p := s.ops[p] + 1], passed := s.passed - {p})
  {
    ReachStep(g, s, LogWrite(p, k));
    LogWriteAdds(g, s, p, k);
    s' := Do(g, s, LogWrite(p, k));
  }

  lemma LogWriteAdds(g: Geometry, s: State, p: nat, i: nat)
    requires p in s.passed && s.passed[p] == i && MayLog(g, s, p, i) && s.bufs[i].blockno !in s.lh
    ensures Do(g, s, LogWrite(p, i)) ==
      s.(bufs := s.bufs[i := s.bufs[i].(dirty := true, touched := false)],
         lh := s.lh + [s.bufs[i].blockno as Word], ops := s.ops[p := s.ops[p] + 1], passed := s.passed - {p})
  {
  }

  lemma Releases(g: Geometry, s: State, p: nat, k: nat) returns (s': State)
    requires Reachable(g, s) && p !in s.passed && Holds(s, p, k) && !s.bufs[k].touched
    ensures Reachable(g, s') && s' == s.(bufs := s.bufs[k := s.bufs[k].(holder := Unheld)])
  {
    ReachStep(g, s, Release(p, k));
    s' := Do(g, s, Release(p, k));
  }

  lemma Appends(g: Geometry, s: State, p: nat, k: nat) returns (s': State)
    requires Reachable(g, s) && p in s.passed && s.passed[p] == k && MayAdd(g, s, p, k)
    ensures Reachable(g, s') && Appended(s, s', p, k)
  {
    var m := Adds(g, s, p, k);
    s' := Releases(g, m, p, k);
    assert s'.bufs == s.bufs[k := s.bufs[k].(dirty := true, touched := false, holder := Unheld)];
  }

  lemma NextIsFree(g: Geometry, s: State, k: nat)
    requires Filled(g, s, k) && k < LOGSIZE
    ensures !Cached(s, k) && k < |s.bufs| && k < |s.disk| && s.bufs[k].holder.Unheld? && !s.bufs[k].dirty
  {
    assert BufferFilled(s.bufs[k], k, k);
    forall i | 0 <= i < |s.bufs| && s.bufs[i].inUse ensures s.bufs[i].blockno != k {
      assert BufferFilled(s.bufs[i], i, k);
    }
  }

  lemma NextMayAdd(g: Geometry, s: State, s': State, k: nat)
    requires Filled(g, s, k) && k < LOGSIZE && Loaded(s, s', k % 3, k)
    ensures MayAdd(g, s', k % 3, k)
  {
    SharesNext(k);
  }

  lemma LoadsNext(g: Geometry, s: State, k: nat) returns (s': State)
    requires Reachable(g, s) && Filled(g, s, k) && k < LOGSIZE
    ensures Reachable(g, s') && Loaded(s, s', k % 3, k) && MayAdd(g, s', k % 3, k)
  {
    NextIsFree(g, s, k);
    s' := Loads(g, s, k % 3, k);
    NextMayAdd(g, s, s', k);
  }

  /** The operation whose turn it is reads and logs the next block. */
  lemma LogsOne(g: Geometry, s: State, k: nat) returns (s': State)
    requires Reachable(g, s) && Filled(g, s, k) && k < LOGSIZE && k < g.size - 1
    ensures Reachable(g, s') && Filled(g, s', k + 1)
  {
    var s1 := LoadsNext(g, s, k);
    var s2 := Tests(g, s1, k % 3, k);
    assert MayAdd(g, s2, k % 3, k);
    s' := Appends(g, s2, k % 3, k);
    OneAppended(g, s, s1, s2, s', k);
  }

  lemma OneAppended(g: Geometry, s: State, s1: State, s2: State, s': State, k: nat)
    requires Filled(g, s, k) && k < LOGSIZE && Loaded(s, s1, k % 3, k)
    requires s2 == s1.(passed := map[k % 3 := k]) && Appended(s2, s', k % 3, k)
    ensures Filled(g, s', k + 1)
  {
    assert s'.passed == map[];
    FilledNext(g, s, s', k);
  }

  lemma FilledNext(g: Geometry, s: State, s': State, k: nat)
    requires Filled(g, s, k) && k < NBUF && |s'.bufs| == NBUF && s'.passed == map[]
    requires s' == s.(bufs := s.bufs[k := s'.bufs[k]], lh := s.lh + [k as Word],
                      ops := s.ops[k % 3 := s.ops[k % 3] + 1])
    requires BufferFilled(s'.bufs[k], k, k + 1)
    ensures Filled(g, s', k + 1)
  {
    SharesNext(k);
  }

  lemma SecondIsFree(g: Geometry, s: State, s1: State, k: nat)
    requires Filled(g, s, k) && k + 1 < LOGSIZE && Loaded(s, s1, k % 3, k)
    ensures !Cached(s1, k + 1) && k + 1 < |s1.bufs| && k + 1 < |s1.disk|
    ensures s1.bufs[k + 1].holder.Unheld? && !s1.bufs[k + 1].dirty
  {
    assert BufferFilled(s.bufs[k + 1], k + 1, k);
    forall i | 0 <= i < |s1.bufs| && s1.bufs[i].inUse ensures s1.bufs[i].blockno != k + 1 {
      assert BufferFilled(s.bufs[i], i, k);
    }
  }

  lemma BothMayAdd(g: Geometry, s: State, s1: State, s2: State, k: nat)
    requires Filled(g, s, k) && k + 1 < LOGSIZE
    requires Loaded(s, s1, k % 3, k) && Loaded(s1, s2, (k + 1) % 3, k + 1)
    ensures MayAdd(g, s2, k % 3, k) && MayAdd(g, s2, (k + 1) % 3, k + 1)
  {
    SharesNext(k);
    SharesNext(k + 1);
  }

  /** Both test the room before either has appended. */
  lemma TestsTwo(g: Geometry, s: State, p: nat, q: nat, k: nat) returns (s': State)
    requires Reachable(g, s) && s.passed == map[] && p != q && !LogWritePanics(g, s)
    requires MayAdd(g, s, p, k) && MayAdd(g, s, q, k + 1)
    ensures Reachable(g, s') && s' == s.(passed := map[p := k, q := k + 1])
    ensures MayAdd(g, s', p, k) && MayAdd(g, s', q, k + 1)
  {
    s' := Tests(g, s, p, k);
    s' := Tests(g, s', q, k + 1);
  }

  lemma AppendsTwo(g: Geometry, s: State, p: nat, q: nat, k: nat) returns (s1: State, s2: State)
    requires Reachable(g, s) && s.passed == map[p := k, q := k + 1] && p != q
    requires MayAdd(g, s, p, k) && MayAdd(g, s, q, k + 1)
    ensures Reachable(g, s2) && Appended(s, s1, p, k) && Appended(s1, s2, q, k + 1)
  {
    s1 := Appends(g, s, p, k);
    s2 := Appends(g, s1, q, k + 1);
  }

  lemma LoadsTwo(g: Geometry, s: State, k: nat) returns (s1: State, s2: State)
    requires Reachable(g, s) && Filled(g, s, k) && k + 1 < LOGSIZE
    ensures Reachable(g, s2) && Loaded(s, s1, k % 3, k) && Loaded(s1, s2, (k + 1) % 3, k + 1)
    ensures MayAdd(g, s2, k % 3, k) && MayAdd(g, s2, (k + 1) % 3, k + 1)
    ensures s2.passed == map[] && |s2.lh| == k
  {
    s1 := LoadsNext(g, s, k);
    SecondIsFree(g, s, s1, k);
    s2 := Loads(g, s1, (k + 1) % 3, k + 1);
    BothMayAdd(g, s, s1, s2, k);
  }

  lemma RaceTwo(g: Geometry, s: State, p: nat, q: nat, k: nat) returns (s1: State, s2: State, s3: State)
    requires Reachable(g, s) && s.passed == map[] && p != q && !LogWritePanics(g, s)
    requires MayAdd(g, s, p, k) && MayAdd(g, s, q, k + 1)
    ensures Reachable(g, s3) && s1 == s.(passed := map[p := k, q := k + 1])
    ensures Appended(s1, s2, p, k) && Appended(s2, s3, q, k + 1)
  {
    s1 := TestsTwo(g, s, p, q, k);
    s2, s3 := AppendsTwo(g, s1, p, q, k);
  }

  /** Two operations log the next two blocks, where the room for one would have been enough. */
  lemma LogsTwoAtOnce(g: Geometry, s: State, k: nat) returns (s': State)
    requires Reachable(g, s) && Filled(g, s, k) && k <= LOGSIZE - 2 && k <= g.size - 2
    ensures Reachable(g, s') && Filled(g, s', k + 2)
  {
    var s1, s2 := LoadsTwo(g, s, k);
    var s4, s5, s6 := RaceTwo(g, s2, k % 3, (k + 1) % 3, k);
    BothAppended(g, s, s1, s2, s4, s5, s6, k);
    s' := s6;
  }

  lemma BothAppended(g: Geometry, s: State, s1: State, s2: State, s4: State, s5: State, s6: State, k: nat)
    requires Filled(g, s, k) && k <= LOGSIZE - 2
    requires Loaded(s, s1, k % 3, k) && Loaded(s1, s2, (k + 1) % 3, k + 1)
    requires s4 == s2.(passed := map[k % 3 := k, (k + 1) % 3 := k + 1])
    requires Appended(s4, s5, k % 3, k) && Appended(s5, s6, (k + 1) % 3, k + 1)
    ensures Filled(g, s6, k + 2)
  {
    assert s6.passed == map[];
    var m := s.(bufs := s.bufs[k := s5.bufs[k]], lh := s.lh + [k as Word], ops := s.ops[k % 3 := s.ops[k % 3] + 1]);
    FilledNext(g, s, m, k);
    FilledNext(g, m, s6, k + 1);
  }

  lemma {:induction false} FillUp(g: Geometry, k: nat) returns (s: State)
    requires Usable(g) && k <= LOGSIZE && k <= g.size - 1
    ensures Reachable(g, s) && Filled(g, s, k)
  {
    if k == 0 {
      s := OpenThree(g);
    } else {
      s := FillUp(g, k - 1);
      s := LogsOne(g, s, k - 1);
    }
  }

  // ---------------------------------------------------------------- room in the log region

  /** Logged blocks never outgrow the slots of the log region. */
  ghost predicate AlwaysFits(g: Geometry) {
    forall s :: Reachable(g, s) ==> |s.lh| < g.size
  }

  /**
    The log has a header block and size - 1 slots. `log_write` tests the room before it takes the lock,
    so two operations can both pass the test for the last slot. Hence logged blocks stay within the region
    if and only if it has a slot for every block admission lets in, or no slot at all.
   */
  lemma FitsExactly(g: Geometry)
    requires Usable(g)
    ensures AlwaysFits(g) <==> Roomy(g)
  {
    if Roomy(g) {
      forall s | Reachable(g, s) ensures |s.lh| < g.size {
        ReachableCore(g, s);
      }
    } else {
      var s := FillUp(g, g.size - 2);
      s := LogsTwoAtOnce(g, s, g.size - 2);
      assert Reachable(g, s) && |s.lh| == g.size;
    }
  }

  /** The image mkfs builds: 2000 blocks, the last 30 of them log. */
  const MKFS: Geometry := Geometry(1970, 30)

  lemma MkfsLogOverflows() returns (s: State)
    ensures Reachable(MKFS, s) && |s.lh| == LOGSIZE && MKFS.Slot(LOGSIZE - 1) == |s.disk| == 2000
  {
    s := FillUp(MKFS, 28);
    s := LogsTwoAtOnce(MKFS, s, 28);
  }

  // ---------------------------------------------------------------- the panic in log_write

  /** Process p enters `log_write` for a block not in the log, within its budget. */
  ghost predicate EntersNew(g: Geometry, s: State, p: nat, i: nat) {
    p !in s.passed && MayLog(g, s, p, i) && s.bufs[i].blockno !in s.lh
  }

  /** The same for a block that is already in the log. */
  ghost predicate EntersAgain(g: Geometry, s: State, p: nat, i: nat) {
    p !in s.passed && MayLog(g, s, p, i) && s.bufs[i].blockno in s.lh
  }

  ghost predicate NewNeverPanics(g: Geometry) {
    forall s, p, i :: Reachable(g, s) && EntersNew(g, s, p, i) ==> !LogWritePanics(g, s)
  }

  /** An operation with budget left, whatever block it logs, finds fewer than LOGSIZE blocks in the log. */
  lemma BudgetLeft(g: Geometry, s: State, p: nat)
    requires Reachable(g, s) && p in s.ops && s.ops[p] < MAXOPBLOCKS
    ensures |s.lh| < LOGSIZE
  {
    ReachableCore(g, s);
    UnspentSpend(s.ops, p);
  }

  lemma NewPanicRun(g: Geometry) returns (s: State, p: nat, i: nat)
    requires Usable(g) && g.size <= LOGSIZE
    ensures Reachable(g, s) && EntersNew(g, s, p, i) && LogWritePanics(g, s)
  {
    var k := g.size - 1;
    var m := FillUp(g, k);
    s := LoadsNext(g, m, k);
    p, i := k % 3, k;
  }

  /** No operation within its budget panics on a new block, if and only if the region is larger than LOGSIZE. */
  lemma NewPanicsExactly(g: Geometry)
    requires Usable(g)
    ensures NewNeverPanics(g) <==> g.size > LOGSIZE
  {
    if g.size > LOGSIZE {
      forall s, p, i | Reachable(g, s) && EntersNew(g, s, p, i) ensures !LogWritePanics(g, s) {
        BudgetLeft(g, s, p);
      }
    } else {
      var s, p, i := NewPanicRun(g);
    }
  }

  lemma MkfsLogCanPanic()
    ensures !NewNeverPanics(MKFS)
  {
    NewPanicsExactly(MKFS);
  }

  lemma {:induction false} NoneUnspent(ops: map<nat, nat>, q: nat)
    requires q in ops && Unspent(ops) <= 0 && forall p :: p in ops ==> ops[p] <= MAXOPBLOCKS
    ensures ops[q] == MAXOPBLOCKS
  {
    if ops[q] < MAXOPBLOCKS {
      UnspentSpend(ops, q);
    }
  }

  /**
    Absorption does not save `log_write` from its test. With a region larger than LOGSIZE, logging a block
    once more panics exactly when LOGSIZE blocks are in the log, and then every operation has spent its
    whole budget.
   */
  lemma AgainPanicsExactly(g: Geometry, s: State, p: nat, i: nat)
    requires Reachable(g, s) && g.size > LOGSIZE && EntersAgain(g, s, p, i)
    ensures LogWritePanics(g, s) <==> |s.lh| == LOGSIZE
    ensures LogWritePanics(g, s) ==> forall q :: q in s.ops ==> s.ops[q] == MAXOPBLOCKS
  {
    ReachableCore(g, s);
    if LogWritePanics(g, s) {
      forall q | q in s.ops ensures s.ops[q] == MAXOPBLOCKS {
        NoneUnspent(s.ops, q);
      }
    }
  }

  /** Such a panic can be reached whenever the region has a slot at all. */
  lemma AgainCanPanic(g: Geometry)
    requires Usable(g)
    ensures (exists s, p, i :: Reachable(g, s) && EntersAgain(g, s, p, i) && LogWritePanics(g, s)) <==> g.size >= 2
  {
    if g.size >= 2 {
      var k := if g.size > LOGSIZE then LOGSIZE else g.size - 1;
      var m := FillUp(g, k);
      assert BufferFilled(m.bufs[0], 0, k);
      ReachStep(g, m, GetHit(0, 0));
      var s := Do(g, m, GetHit(0, 0));
      assert s.lh[0] == s.bufs[0].blockno;
      assert EntersAgain(g, s, 0, 0) && LogWritePanics(g, s);
    } else if s, p, i :| Reachable(g, s) && EntersAgain(g, s, p, i) && LogWritePanics(g, s) {
      ReachableCore(g, s);
    }
  }

  // ---------------------------------------------------------------- the panic in bget

  /** `bget` can recycle a buffer. */
  ghost predicate HasFreeBuffer(s: State) {
    exists i :: 0 <= i < |s.bufs| && s.bufs[i].holder.Unheld? && !s.bufs[i].dirty
  }

  ghost function DirtyBuffers(s: State): set<nat> {
    set i: nat | 0 <= i < |s.bufs| && s.bufs[i].dirty
  }

  ghost function HeldClean(s: State): set<nat> {
    set i: nat | 0 <= i < |s.bufs| && !s.bufs[i].holder.Unheld? && !s.bufs[i].dirty
  }

  /** Block b is in a buffer of d. */
  ghost predicate Covered(s: State, d: set<nat>, b: nat) {
    exists i :: i in d && i < |s.bufs| && s.bufs[i].blockno == b
  }

  /** Buffers and blocks in one-to-one correspondence are equally many. */
  lemma {:induction false} Matching(s: State, blocks: seq<Word>, d: set<nat>)
    requires forall i :: i in d ==> i < |s.bufs| && s.bufs[i].blockno in blocks
    requires forall i, j :: i in d && j in d && i != j ==> s.bufs[i].blockno != s.bufs[j].blockno
    requires forall k :: 0 <= k < |blocks| ==> Covered(s, d, blocks[k])
    requires forall k, l :: 0 <= k < l < |blocks| ==> blocks[k] != blocks[l]
    ensures |d| == |blocks|
    decreases |blocks|
  {
    if blocks == [] {
      assert d == {};
    } else {
      var n := |blocks| - 1;
      assert Covered(s, d, blocks[n]);
      var i :| i in d && i < |s.bufs| && s.bufs[i].blockno == blocks[n];
      forall k | 0 <= k < n ensures Covered(s, d - {i}, blocks[..n][k]) {
        assert Covered(s, d, blocks[k]);
        var j :| j in d && j < |s.bufs| && s.bufs[j].blockno == blocks[k];
        assert j in d - {i};
      }
      Matching(s, blocks[..n], d - {i});
      assert |d| == |d - {i}| + 1;
    }
  }

  lemma DirtyCount(g: Geometry, s: State)
    requires CoreInv(g, s)
    ensures |DirtyBuffers(s)| == |Unsettled(s)|
  {
    var d, blocks := DirtyBuffers(s), Unsettled(s);
    forall i | i in d ensures s.bufs[i].inUse && s.bufs[i].blockno in blocks {
      assert BufOk(g, s, s.bufs[i]);
    }
    forall k | 0 <= k < |blocks| ensures Covered(s, d, blocks[k]) {
      assert Pinned(s, blocks[k]);
      var i :| 0 <= i < |s.bufs| && s.bufs[i].dirty && s.bufs[i].blockno == blocks[k];
      assert i in d;
    }
    Matching(s, blocks, d);
  }

  lemma {:induction false} CountBelow(n: nat, d: set<nat>)
    requires forall i :: i in d ==> i < n
    ensures |d| <= n && (|d| < n ==> exists i: nat :: i < n && i !in d)
  {
    if n == 0 {
      assert d == {};
    } else if n - 1 in d {
      CountBelow(n - 1, d - {n - 1});
      if |d| < n {
        var i: nat :| i < n - 1 && i !in d - {n - 1};
        assert i !in d;
      }
    } else {
      CountBelow(n - 1, d);
    }
  }

  lemma AllBelow(n: nat, d: set<nat>)
    requires forall i :: i in d <==> 0 <= i < n
    ensures |d| == n
  {
    CountBelow(n, d);
  }

  /**
    `bget` finds a buffer to recycle, in a commit or elsewhere, if and only if the blocks still to be
    installed and the clean buffers somebody holds are together fewer than NBUF.
   */
  lemma BufferLeftExactly(g: Geometry, s: State)
    requires Reachable(g, s)
    ensures HasFreeBuffer(s) <==> |Unsettled(s)| + |HeldClean(s)| < NBUF
  {
    ReachableCore(g, s);
    DirtyCount(g, s);
    FreeBufferCount(s);
  }

  lemma FreeBufferCount(s: State)
    ensures HasFreeBuffer(s) <==> |DirtyBuffers(s)| + |HeldClean(s)| < |s.bufs|
  {
    var d, h := DirtyBuffers(s), HeldClean(s);
    assert |d + h| == |d| + |h|;
    if HasFreeBuffer(s) {
      var i :| 0 <= i < |s.bufs| && s.bufs[i].holder.Unheld? && !s.bufs[i].dirty;
      assert i !in d + h;
      CountBelow(|s.bufs|, d + h + {i});
    } else {
      AllBelow(|s.bufs|, d + h);
    }
  }

  /** Three operations that use their whole budgets leave a commit no buffer for its first slot, which is not cached. */
  lemma CommitCanStarve(g: Geometry) returns (s: State)
    requires Usable(g) && g.size >= LOGSIZE
    ensures Reachable(g, s) && s.phase == Filling(0) && HeldClean(s) == {} && !HasFreeBuffer(s)
    ensures !Cached(s, g.Slot(0))
  {
    var m;
    if g.size == LOGSIZE {
      m := FillUp(g, LOGSIZE - 2);
      m := LogsTwoAtOnce(g, m, LOGSIZE - 2);
    } else {
      m := FillUp(g, LOGSIZE);
    }
    s := EndsThree(g, m);
    forall i | 0 <= i < |s.bufs|
      ensures s.bufs[i].dirty && s.bufs[i].holder.Unheld? && s.bufs[i].blockno < g.Slot(0)
    {
      assert BufferFilled(m.bufs[i], i, LOGSIZE);
    }
  }

  lemma EndsOne(g: Geometry, s: State, p: nat) returns (s': State)
    requires Reachable(g, s) && p in s.ops && s.passed == map[] && forall i :: 0 <= i < |s.bufs| ==> !s.bufs[i].touched
    ensures Reachable(g, s') && s'.ops == s.ops - {p} && s'.bufs == s.bufs && s'.passed == s.passed && s'.lh == s.lh
    ensures s.lh != [] && s.ops == map[p := s.ops[p]] ==> s'.phase == Filling(0)
  {
    ReachStep(g, s, EndOp(p));
    s' := Do(g, s, EndOp(p));
  }

  lemma EndsThree(g: Geometry, s: State) returns (s': State)
    requires Reachable(g, s) && Filled(g, s, LOGSIZE)
    ensures Reachable(g, s') && s'.phase == Filling(0) && s'.bufs == s.bufs
  {
    forall i | 0 <= i < |s.bufs| ensures !s.bufs[i].touched {
      assert BufferFilled(s.bufs[i], i, LOGSIZE);
    }
    s' := EndsOne(g, s, 0);
    s' := EndsOne(g, s', 1);
    assert s'.ops == map[2 := s.ops[2]];
    s' := EndsOne(g, s', 2);
  }
}
