/**
  The redo log and the buffer cache together, under every interleaving.

  Any number of processes run file-system operations (`begin_op` ... `end_op`), hold buffers
  (`bread` ... `brelse`), change them and log them; the process whose `end_op` was the last commits.
  One step is what happens between two points where another process, or a crash, can intervene: a
  lock-protected section, one disk transfer, or a test made without the lock. `log_write` is two steps,
  because it tests the length of the log before it takes the lock. A crash is a step too, together with
  the recoveries that follow it, so a run may go through any number of them.

  Lookup in the cache is by scanning here; module BufferCache shows the hash index agrees with that.
 */
module LogProtocol {
  import opened Basics
  import opened RedoLog

  datatype Holder = Unheld | HeldBy(pid: nat)

  /** `inUse` is `dev != -1`; `touched` marks contents changed by the holder but not yet logged. */
  datatype Buf = Buf(inUse: bool, blockno: nat, holder: Holder, valid: bool, dirty: bool, touched: bool, data: Block)

  /** Where the committing process is: filling slots, installing homes, header cleared. */
  datatype Phase = Idle | Filling(t: nat) | Installing(t: nat) | Cleared

  datatype State = State(
    disk: Image,
    bufs: seq<Buf>,
    lh: seq<Word>,            // logged block numbers, in log order
    ops: map<nat, nat>,       // outstanding operations, with the number of blocks each has added
    passed: map<nat, nat>,    // processes in log_write past its test, with the buffer they log
    phase: Phase,             // `log.committing` is phase != Idle
    committer: nat,
    committed: Image          // history variable: home blocks as of the last commit point
  )

  datatype Step =
    | BeginOp(p: nat)
    | GetHit(p: nat, i: nat)
    | GetMiss(p: nat, i: nat, b: nat)
    | Fetch(p: nat, i: nat)
    | Modify(p: nat, i: nat, data: Block)
    | TestRoom(p: nat, i: nat)
    | LogWrite(p: nat, i: nat)
    | Release(p: nat, i: nat)
    | EndOp(p: nat)
    | WriteSlot(i: nat, j: nat)
    | WriteHeader(i: nat)
    | Install(i: nat, j: nat)
    | ClearHeader(i: nat)
    | FinishCommit
    | Reboot(ks: seq<nat>, cache: seq<Buf>)

  // ---------------------------------------------------------------- transitions

  predicate Holds(s: State, p: nat, i: nat) {
    i < |s.bufs| && s.bufs[i].holder == HeldBy(p) && s.bufs[i].inUse
  }

  predicate HoldsValid(s: State, p: nat, i: nat, b: nat) {
    Holds(s, p, i) && s.bufs[i].valid && s.bufs[i].blockno == b
  }

  predicate Cached(s: State, b: nat) {
    exists i :: 0 <= i < |s.bufs| && s.bufs[i].inUse && s.bufs[i].blockno == b
  }

  /** The two panics at the head of `log_write`, tested before absorption is considered. */
  predicate LogWritePanics(g: Geometry, s: State) {
    |s.lh| >= LOGSIZE || |s.lh| >= g.size - 1
  }

  /** Process p, in an operation, holds the loaded home block in buffer i and has the budget to log it. */
  ghost predicate MayLog(g: Geometry, s: State, p: nat, i: nat) {
    && Holds(s, p, i) && s.bufs[i].valid && p in s.ops && s.bufs[i].blockno < g.start < 0x8000_0000
    && (s.bufs[i].blockno !in s.lh ==> s.ops[p] < MAXOPBLOCKS)
  }

  /** A cache that agrees with the disk and that nobody uses, as boot and recovery leave it. */
  ghost predicate CleanCache(disk: Image, bufs: seq<Buf>) {
    && |bufs| == NBUF
    && (forall i :: 0 <= i < NBUF ==>
          && !bufs[i].dirty && !bufs[i].touched && bufs[i].holder.Unheld?
          && (bufs[i].inUse ==> bufs[i].blockno < |disk|)
          && (bufs[i].valid ==> bufs[i].inUse && bufs[i].data == disk[bufs[i].blockno]))
    && (forall i, j :: 0 <= i < j < NBUF && bufs[i].inUse && bufs[j].inUse ==> bufs[i].blockno != bufs[j].blockno)
  }

  /** The disk once recovery, cut off after ks[0], ks[1], ... writes, has at last run through. */
  ghost function Rebooted(g: Geometry, disk: Image, ks: seq<nat>): (r: Image)
    requires DiskOk(g, disk)
    ensures |r| == |disk|
  {
    Recover(g, CrashedRecoveries(g, disk, ks))
  }

  /** A process inside `log_write` does nothing else. */
  ghost predicate Enabled(g: Geometry, s: State, step: Step) {
    match step
    case BeginOp(p) =>
      s.phase.Idle? && p !in s.ops && |s.lh| + (|s.ops| + 1) * MAXOPBLOCKS <= LOGSIZE
    case GetHit(p, i) =>
      p !in s.passed && i < |s.bufs| && s.bufs[i].inUse && s.bufs[i].holder.Unheld?
    case GetMiss(p, i, b) =>
      && p !in s.passed && b < |s.disk| && !Cached(s, b)
      && i < |s.bufs| && s.bufs[i].holder.Unheld? && !s.bufs[i].dirty
    case Fetch(p, i) =>
      p !in s.passed && Holds(s, p, i) && !s.bufs[i].valid && s.bufs[i].blockno < |s.disk|
    case Modify(p, i, _) =>
      p !in s.passed && Holds(s, p, i) && s.bufs[i].valid && p in s.ops && s.bufs[i].blockno < g.start
    case TestRoom(p, i) =>
      p !in s.passed && MayLog(g, s, p, i) && !LogWritePanics(g, s)
    case LogWrite(p, i) =>
      p in s.passed && s.passed[p] == i && MayLog(g, s, p, i)
    case Release(p, i) =>
      p !in s.passed && Holds(s, p, i) && !s.bufs[i].touched
    case EndOp(p) =>
      && p in s.ops && p !in s.passed
      && forall i :: 0 <= i < |s.bufs| && s.bufs[i].holder == HeldBy(p) ==> !s.bufs[i].touched
    case WriteSlot(i, j) =>
      && s.phase.Filling? && s.phase.t < |s.lh| && g.Slot(s.phase.t) < |s.disk|
      && HoldsValid(s, s.committer, i, g.Slot(s.phase.t)) && HoldsValid(s, s.committer, j, s.lh[s.phase.t])
    case WriteHeader(i) =>
      && s.phase.Filling? && s.phase.t == |s.lh| <= LOGSIZE && g.start < |s.disk|
      && HoldsValid(s, s.committer, i, g.start)
    case Install(i, j) =>
      && s.phase.Installing? && s.phase.t < |s.lh| && s.lh[s.phase.t] < |s.disk|
      && HoldsValid(s, s.committer, i, g.Slot(s.phase.t)) && HoldsValid(s, s.committer, j, s.lh[s.phase.t])
    case ClearHeader(i) =>
      && s.phase.Installing? && s.phase.t == |s.lh| && g.start < |s.disk|
      && HoldsValid(s, s.committer, i, g.start)
    case FinishCommit =>
      s.phase.Cleared?
    case Reboot(ks, cache) =>
      DiskOk(g, s.disk) && CleanCache(Rebooted(g, s.disk, ks), cache)
  }

  /** What a process reads as block b: the valid cached copy if there is one, else the disk. */
  ghost function View(s: State, b: nat): Block
    requires b < |s.disk|
  {
    if i :| 0 <= i < |s.bufs| && s.bufs[i].valid && s.bufs[i].blockno == b then s.bufs[i].data else s.disk[b]
  }

  ghost function Snapshot(s: State): (r: Image)
    ensures |r| == |s.disk|
    ensures forall b :: 0 <= b < |s.disk| ==> r[b] == View(s, b)
  {
    seq(|s.disk|, b requires 0 <= b < |s.disk| => View(s, b))
  }

  function SetBuf(s: State, i: nat, b: Buf): State
    requires i < |s.bufs|
  {
    s.(bufs := s.bufs[i := b])
  }

  /** `bwrite` of buffer i with new contents: the disk block is written and B_DIRTY cleared. */
  function WriteBack(s: State, i: nat, data: Block): State
    requires i < |s.bufs| && s.bufs[i].blockno < |s.disk|
  {
    s.(bufs := s.bufs[i := s.bufs[i].(data := data, dirty := false)], disk := s.disk[s.bufs[i].blockno := data])
  }

  ghost function Do(g: Geometry, s: State, step: Step): State
    requires Enabled(g, s, step)
  {
    match step
    case BeginOp(p) => s.(ops := s.ops[p := 0])
    case GetHit(p, i) => SetBuf(s, i, s.bufs[i].(holder := HeldBy(p)))
    case GetMiss(p, i, b) => SetBuf(s, i, Buf(true, b, HeldBy(p), false, false, false, s.bufs[i].data))
    case Fetch(p, i) => SetBuf(s, i, s.bufs[i].(valid := true, data := s.disk[s.bufs[i].blockno]))
    case Modify(p, i, data) => SetBuf(s, i, s.bufs[i].(data := data, touched := true))
    case TestRoom(p, i) => s.(passed := s.passed[p := i])
    case LogWrite(p, i) =>
      var b := s.bufs[i].blockno;
      var s' := SetBuf(s, i, s.bufs[i].(dirty := true, touched := false)).(passed := s.passed - {p});
      if b in s.lh then s' else s'.(lh := s.lh + [b as Word], ops := s.ops[p := s.ops[p] + 1])
    case Release(p, i) => SetBuf(s, i, s.bufs[i].(holder := Unheld))
    case EndOp(p) =>
      var ops := s.ops - {p};
      if ops != map[] then s.(ops := ops)
      else s.(ops := ops, committer := p, phase := if s.lh == [] then Cleared else Filling(0))
    case WriteSlot(i, j) => WriteBack(s, i, s.bufs[j].data).(phase := Filling(s.phase.t + 1))
    case WriteHeader(i) =>
      WriteBack(s, i, EncodeHead(s.bufs[i].data, s.lh)).(phase := Installing(0), committed := Snapshot(s))
    case Install(i, j) => WriteBack(s, j, s.bufs[i].data).(phase := Installing(s.phase.t + 1))
    case ClearHeader(i) => WriteBack(s, i, EncodeHead(s.bufs[i].data, [])).(phase := Cleared, lh := [])
    case FinishCommit => s.(phase := Idle)
    case Reboot(ks, cache) =>
      State(Rebooted(g, s.disk, ks), cache, [], map[], map[], Idle, s.committer, s.committed)
  }

  // ---------------------------------------------------------------- invariants

  /** No block is cached twice; a valid buffer that is neither logged nor being changed equals the disk. */
  ghost predicate CacheInv(g: Geometry, s: State) {
    && |s.bufs| == NBUF
    && (forall i :: 0 <= i < NBUF ==> BufOk(g, s, s.bufs[i]))
    && (forall i, j :: 0 <= i < j < NBUF && s.bufs[i].inUse && s.bufs[j].inUse ==>
          s.bufs[i].blockno != s.bufs[j].blockno)
  }

  ghost predicate BufOk(g: Geometry, s: State, b: Buf) {
    && (b.inUse ==> b.blockno < |s.disk|)
    && (b.valid ==> b.inUse)
    && (b.dirty ==> b.valid)
    && (b.touched ==> b.valid && b.blockno < g.start && b.holder.HeldBy? && b.holder.pid in s.ops)
    && (b.valid && !b.dirty && !b.touched ==> b.data == s.disk[b.blockno])
  }

  /** The logged blocks whose new contents still live only in the cache. */
  function Unsettled(s: State): seq<Word> {
    if s.phase.Installing? && s.phase.t <= |s.lh| then s.lh[s.phase.t..] else s.lh
  }

  /** Dirty buffers are exactly the cached copies of unsettled logged blocks. */
  ghost predicate PinInv(s: State) {
    && (forall i :: 0 <= i < |s.bufs| && s.bufs[i].dirty ==> s.bufs[i].blockno in Unsettled(s))
    && (forall k :: 0 <= k < |Unsettled(s)| ==> Pinned(s, Unsettled(s)[k]))
  }

  ghost predicate Pinned(s: State, b: nat) {
    exists i :: 0 <= i < |s.bufs| && s.bufs[i].dirty && s.bufs[i].blockno == b
  }

  /** Blocks the outstanding operations may still add. */
  ghost function Unspent(ops: map<nat, nat>): int
    decreases |ops|
  {
    if ops == map[] then 0
    else
      var p :| p in ops;
      MAXOPBLOCKS - ops[p] + Unspent(ops - {p})
  }

  ghost predicate AdmissionInv(g: Geometry, s: State) {
    && |s.lh| <= LOGSIZE && DistinctHomes(g, s.lh)
    && (g.size <= 1 ==> s.lh == [] && s.passed == map[])
    && (!s.phase.Idle? ==> s.ops == map[])
    && (s.phase.Cleared? || (s.phase.Idle? && s.ops == map[]) ==> s.lh == [])
    && (s.phase.Filling? || s.phase.Installing? ==> s.phase.t <= |s.lh| && s.lh != [])
    && (forall p :: p in s.ops ==> s.ops[p] <= MAXOPBLOCKS)
    && |s.lh| + Unspent(s.ops) <= LOGSIZE
  }

  /** Slot u of the log region holds the new contents of the u-th logged block. */
  ghost predicate SlotHolds(g: Geometry, s: State, u: nat)
    requires u < |s.lh| && g.Slot(u) < |s.disk|
  {
    forall i :: 0 <= i < |s.bufs| && s.bufs[i].dirty && s.bufs[i].blockno == s.lh[u] ==>
      s.bufs[i].data == s.disk[g.Slot(u)]
  }

  ghost predicate DiskInv(g: Geometry, s: State)
    requires AdmissionInv(g, s) && |s.lh| < g.size
  {
    && g.Fits(s.disk)
    && |s.committed| == |s.disk|
    && (!s.phase.Installing? ==> Count(s.disk[g.start]) == 0 && SameHomes(g, s.disk, s.committed))
    && (s.phase.Filling? ==> forall u :: 0 <= u < s.phase.t ==> SlotHolds(g, s, u))
    && (s.phase.Installing? ==>
      && Count(s.disk[g.start]) == |s.lh| && DecodeHead(s.disk[g.start]) == s.lh
      && (forall u :: 0 <= u < |s.lh| ==> SlotHolds(g, s, u) && s.committed[s.lh[u]] == s.disk[g.Slot(u)])
      && (forall h :: 0 <= h < g.start && h !in s.lh ==> s.committed[h] == s.disk[h])
      && (forall u :: 0 <= u < s.phase.t ==> s.disk[s.lh[u]] == s.committed[s.lh[u]]))
  }

  /** Whoever passed the test of `log_write` can go on to log its buffer. */
  ghost predicate PassedInv(g: Geometry, s: State) {
    forall p :: p in s.passed ==> MayLog(g, s, p, s.passed[p])
  }

  /** What holds in every run, whatever the size of the log. */
  ghost predicate CoreInv(g: Geometry, s: State) {
    CacheInv(g, s) && PinInv(s) && AdmissionInv(g, s) && PassedInv(g, s)
  }

  /** What holds as long as logged blocks have slots. */
  ghost predicate Inv(g: Geometry, s: State) {
    CoreInv(g, s) && |s.lh| < g.size && DiskInv(g, s)
  }

  /** The log has a slot for every block admission lets in, or none at all. */
  predicate Roomy(g: Geometry) {
    g.size == 1 || g.size > LOGSIZE
  }

  ghost predicate Init(g: Geometry, s: State) {
    && g.Fits(s.disk) && Count(s.disk[g.start]) == 0
    && CleanCache(s.disk, s.bufs)
    && s.lh == [] && s.ops == map[] && s.passed == map[] && s.phase == Idle && s.committed == s.disk
  }

  // ---------------------------------------------------------------- budgets

  lemma {:induction false} UnspentRemove(ops: map<nat, nat>, q: nat)
    requires q in ops
    ensures Unspent(ops) == MAXOPBLOCKS - ops[q] + Unspent(ops - {q})
    decreases |ops|
  {
    var p :| p in ops && Unspent(ops) == MAXOPBLOCKS - ops[p] + Unspent(ops - {p});
    if p != q {
      UnspentRemove(ops - {p}, q);
      UnspentRemove(ops - {q}, p);
      assert ops - {p} - {q} == ops - {q} - {p};
    }
  }

  lemma UnspentUpdate(ops: map<nat, nat>, q: nat, v: nat)
    ensures Unspent(ops[q := v]) == MAXOPBLOCKS - v + Unspent(ops - {q})
  {
    UnspentRemove(ops[q := v], q);
    assert ops[q := v] - {q} == ops - {q};
  }

  lemma {:induction false} UnspentBound(ops: map<nat, nat>)
    requires forall p :: p in ops ==> ops[p] <= MAXOPBLOCKS
    ensures 0 <= Unspent(ops) <= |ops| * MAXOPBLOCKS
    decreases |ops|
  {
    if ops != map[] {
      var p :| p in ops && Unspent(ops) == MAXOPBLOCKS - ops[p] + Unspent(ops - {p});
      UnspentBound(ops - {p});
    }
  }

  lemma UnspentSpend(ops: map<nat, nat>, q: nat)
    requires q in ops && ops[q] < MAXOPBLOCKS && forall p :: p in ops ==> ops[p] <= MAXOPBLOCKS
    ensures Unspent(ops[q := ops[q] + 1]) == Unspent(ops) - 1 && Unspent(ops) >= 1
  {
    var rest := ops - {q};
    assert forall p :: p in rest ==> rest[p] <= MAXOPBLOCKS;
    UnspentBound(rest);
    UnspentUpdate(ops, q, ops[q] + 1);
    UnspentRemove(ops, q);
  }

  // ---------------------------------------------------------------- every step keeps the invariants

  predicate ByCommitter(step: Step) {
    step.WriteSlot? || step.WriteHeader? || step.Install? || step.ClearHeader? || step.FinishCommit?
  }

  predicate ByProcess(step: Step) {
    !ByCommitter(step) && !step.Reboot?
  }

  lemma AdmissionByLogWrite(g: Geometry, s: State, step: Step)
    requires AdmissionInv(g, s) && step.LogWrite? && Enabled(g, s, step)
    ensures AdmissionInv(g, Do(g, s, step))
  {
    if s.bufs[step.i].blockno !in s.lh {
      UnspentSpend(s.ops, step.p);
    }
  }

  lemma AdmissionByBeginOp(g: Geometry, s: State, step: Step)
    requires AdmissionInv(g, s) && step.BeginOp? && Enabled(g, s, step)
    ensures AdmissionInv(g, Do(g, s, step))
  {
    UnspentUpdate(s.ops, step.p, 0);
    UnspentBound(s.ops);
    assert s.ops - {step.p} == s.ops;
  }

  lemma AdmissionByEndOp(g: Geometry, s: State, step: Step)
    requires AdmissionInv(g, s) && step.EndOp? && Enabled(g, s, step)
    ensures AdmissionInv(g, Do(g, s, step))
  {
    UnspentRemove(s.ops, step.p);
  }

  lemma AdmissionKept(g: Geometry, s: State, step: Step)
    requires AdmissionInv(g, s) && Enabled(g, s, step)
    ensures AdmissionInv(g, Do(g, s, step))
  {
    match step
    case BeginOp(p) => AdmissionByBeginOp(g, s, step);
    case LogWrite(p, i) => AdmissionByLogWrite(g, s, step);
    case EndOp(p) => AdmissionByEndOp(g, s, step);
    case _ =>
  }

  /** Replacing one buffer by one that is fine keeps the cache fine. */
  lemma CacheOneBuf(g: Geometry, s: State, s': State, i: nat)
    requires CacheInv(g, s) && i < NBUF && |s'.bufs| == NBUF
    requires s'.disk == s.disk && s'.ops.Keys == s.ops.Keys
    requires forall k :: 0 <= k < NBUF && k != i ==> s'.bufs[k] == s.bufs[k]
    requires BufOk(g, s', s'.bufs[i])
    requires s'.bufs[i].inUse ==>
      forall k :: 0 <= k < NBUF && k != i && s.bufs[k].inUse ==> s.bufs[k].blockno != s'.bufs[i].blockno
    ensures CacheInv(g, s')
  {
    forall k | 0 <= k < NBUF ensures BufOk(g, s', s'.bufs[k]) {
      assert BufOk(g, s, s.bufs[k]);
    }
  }

  lemma CacheKeptBetween(g: Geometry, s: State, s': State)
    requires CacheInv(g, s) && s'.disk == s.disk && s'.bufs == s.bufs
    requires forall i :: 0 <= i < NBUF && s.bufs[i].touched && s.bufs[i].holder.pid in s.ops ==>
      s.bufs[i].holder.pid in s'.ops
    ensures CacheInv(g, s')
  {
    forall k | 0 <= k < NBUF ensures BufOk(g, s', s'.bufs[k]) {
      assert BufOk(g, s, s.bufs[k]);
    }
  }

  lemma CacheKeptByProcess(g: Geometry, s: State, step: Step)
    requires CoreInv(g, s) && Enabled(g, s, step) && ByProcess(step)
    ensures CacheInv(g, Do(g, s, step))
  {
    var s' := Do(g, s, step);
    if step.BeginOp? || step.EndOp? || step.TestRoom? {
      CacheKeptBetween(g, s, s');
    } else {
      assert BufOk(g, s, s.bufs[step.i]);
      CacheOneBuf(g, s, s', step.i);
    }
  }

  /** s' is s after a write-back of buffer i, apart from the commit's own bookkeeping. */
  ghost predicate WroteBack(s: State, s': State, i: nat, data: Block) {
    && i < |s.bufs| && s.bufs[i].blockno < |s.disk| && s'.ops == s.ops
    && s'.bufs == s.bufs[i := s.bufs[i].(data := data, dirty := false)]
    && s'.disk == s.disk[s.bufs[i].blockno := data]
  }

  /** A write-back reaches one buffer and its own disk block, which no other buffer caches. */
  lemma CacheWriteBack(g: Geometry, s: State, s': State, i: nat, data: Block)
    requires CacheInv(g, s) && i < NBUF && s.bufs[i].valid && s.ops == map[]
    requires WroteBack(s, s', i, data)
    ensures CacheInv(g, s')
  {
    forall k | 0 <= k < NBUF ensures BufOk(g, s', s'.bufs[k]) {
      assert BufOk(g, s, s.bufs[k]);
    }
  }

  /** The buffer a committer's step writes back, and with what. */
  lemma CommitterWritesBack(g: Geometry, s: State, step: Step) returns (i: nat, data: Block)
    requires CoreInv(g, s) && Enabled(g, s, step) && ByCommitter(step) && !step.FinishCommit?
    ensures WroteBack(s, Do(g, s, step), i, data) && s.bufs[i].valid && s.ops == map[]
    ensures step.Install? ==> i == step.j
    ensures !step.Install? ==> i == step.i && s.bufs[i].blockno >= g.start
  {
    if step.WriteSlot? {
      i, data := step.i, s.bufs[step.j].data;
    } else if step.WriteHeader? {
      i, data := step.i, EncodeHead(s.bufs[step.i].data, s.lh);
    } else if step.Install? {
      i, data := step.j, s.bufs[step.i].data;
    } else {
      i, data := step.i, EncodeHead(s.bufs[step.i].data, []);
    }
  }

  lemma CacheKeptByCommit(g: Geometry, s: State, step: Step)
    requires CoreInv(g, s) && Enabled(g, s, step) && ByCommitter(step)
    ensures CacheInv(g, Do(g, s, step))
  {
    if !step.FinishCommit? {
      var i, data := CommitterWritesBack(g, s, step);
      CacheWriteBack(g, s, Do(g, s, step), i, data);
    }
  }

  /** Buffers that stay dirty for the same block keep that block pinned. */
  lemma PinsCarry(s: State, s': State, b: nat)
    requires |s'.bufs| == |s.bufs| && Pinned(s, b)
    requires forall i :: 0 <= i < |s.bufs| && s.bufs[i].dirty && s.bufs[i].blockno == b ==>
      s'.bufs[i].dirty && s'.bufs[i].blockno == b
    ensures Pinned(s', b)
  {
    var i :| 0 <= i < |s.bufs| && s.bufs[i].dirty && s.bufs[i].blockno == b;
    assert s'.bufs[i].dirty;
  }

  /** Replacing one buffer keeps the pins if it stays dirty for its block or was and stays clean. */
  lemma PinOneBuf(s: State, s': State, i: nat)
    requires PinInv(s) && i < |s.bufs| == |s'.bufs| && Unsettled(s') == Unsettled(s)
    requires forall k :: 0 <= k < |s.bufs| && k != i ==> s'.bufs[k] == s.bufs[k]
    requires s'.bufs[i].dirty == s.bufs[i].dirty && (s.bufs[i].dirty ==> s'.bufs[i].blockno == s.bufs[i].blockno)
    ensures PinInv(s')
  {
    forall k | 0 <= k < |Unsettled(s')| ensures Pinned(s', Unsettled(s')[k]) {
      PinsCarry(s, s', Unsettled(s)[k]);
    }
  }

  lemma PinKeptByLogWrite(g: Geometry, s: State, step: Step)
    requires CoreInv(g, s) && Enabled(g, s, step) && step.LogWrite?
    ensures PinInv(Do(g, s, step))
  {
    var s' := Do(g, s, step);
    forall k | 0 <= k < |s'.lh| ensures Pinned(s', s'.lh[k]) {
      if k < |s.lh| {
        assert Pinned(s, Unsettled(s)[k]);
        PinsCarry(s, s', s.lh[k]);
      } else {
        assert s'.bufs[step.i].dirty;
      }
    }
  }

  lemma PinKeptByProcess(g: Geometry, s: State, step: Step)
    requires CoreInv(g, s) && Enabled(g, s, step) && ByProcess(step)
    ensures PinInv(Do(g, s, step))
  {
    if step.BeginOp? || step.EndOp? || step.TestRoom? {
      PinOneBuf(s, Do(g, s, step), 0);
    } else if step.LogWrite? {
      PinKeptByLogWrite(g, s, step);
    } else {
      PinOneBuf(s, Do(g, s, step), step.i);
    }
  }

  /** Installing the t-th logged block through buffer j unpins that block and no other. */
  lemma PinsAfterInstall(s: State, s': State, j: nat, t: nat)
    requires PinInv(s) && s.phase == Installing(t) && t < |s.lh| && s'.phase == Installing(t + 1) && s'.lh == s.lh
    requires forall u, v :: 0 <= u < v < |s.lh| ==> s.lh[u] != s.lh[v]
    requires j < |s.bufs| == |s'.bufs| && s.bufs[j].blockno == s.lh[t] && !s'.bufs[j].dirty
    requires forall k :: 0 <= k < |s.bufs| && k != j ==>
      s'.bufs[k] == s.bufs[k] && (s.bufs[k].dirty ==> s.bufs[k].blockno != s.lh[t])
    ensures PinInv(s')
  {
    var rest := s.lh[t + 1..];
    assert Unsettled(s) == [s.lh[t]] + rest;
    assert Unsettled(s') == rest;
    forall k | 0 <= k < |rest| ensures Pinned(s', rest[k]) {
      assert Unsettled(s)[k + 1] == rest[k] == s.lh[t + 1 + k];
      PinsCarry(s, s', rest[k]);
    }
  }

  lemma PinKeptByInstall(g: Geometry, s: State, step: Step)
    requires CoreInv(g, s) && Enabled(g, s, step) && step.Install?
    ensures PinInv(Do(g, s, step))
  {
    PinsAfterInstall(s, Do(g, s, step), step.j, s.phase.t);
  }

  lemma PinKeptByCommit(g: Geometry, s: State, step: Step)
    requires CoreInv(g, s) && Enabled(g, s, step) && ByCommitter(step) && !step.Install?
    ensures PinInv(Do(g, s, step))
  {
    var s' := Do(g, s, step);
    assert Unsettled(s') == Unsettled(s);
    forall k | 0 <= k < |Unsettled(s')| ensures Pinned(s', Unsettled(s')[k]) {
      PinsCarry(s, s', Unsettled(s)[k]);
    }
  }

  /** Dirty buffers of s' are those of s, apart from who holds them. */
  ghost predicate SameDirty(s: State, s': State)
    requires |s'.bufs| == |s.bufs|
  {
    forall i :: 0 <= i < |s.bufs| && s'.bufs[i].dirty ==> s'.bufs[i] == s.bufs[i].(holder := s'.bufs[i].holder)
  }

  /** While nobody dirties a buffer and the slot is not rewritten, the slot keeps its meaning. */
  lemma SlotCarries(g: Geometry, s: State, s': State, u: nat)
    requires u < |s.lh| && g.Slot(u) < |s.disk| && SlotHolds(g, s, u)
    requires |s'.bufs| == |s.bufs| && |s'.disk| == |s.disk| && s'.lh == s.lh && s'.disk[g.Slot(u)] == s.disk[g.Slot(u)]
    requires SameDirty(s, s')
    ensures SlotHolds(g, s', u)
  {
    forall i | 0 <= i < |s'.bufs| && s'.bufs[i].dirty && s'.bufs[i].blockno == s'.lh[u]
      ensures s'.bufs[i].data == s'.disk[g.Slot(u)]
    {
      assert s.bufs[i].dirty;
    }
  }

  lemma ProcessDisk(g: Geometry, s: State, step: Step)
    requires Enabled(g, s, step) && ByProcess(step)
    ensures Do(g, s, step).disk == s.disk && Do(g, s, step).committed == s.committed
    ensures |Do(g, s, step).bufs| == |s.bufs|
  {
  }

  /** During a commit, the other processes can only look at blocks. */
  lemma DuringCommit(g: Geometry, s: State, step: Step)
    requires CoreInv(g, s) && Enabled(g, s, step) && ByProcess(step) && !s.phase.Idle?
    ensures Do(g, s, step).lh == s.lh && Do(g, s, step).phase == s.phase
    ensures |Do(g, s, step).bufs| == |s.bufs| && SameDirty(s, Do(g, s, step))
  {
    assert step.GetHit? || step.GetMiss? || step.Fetch? || step.Release?;
  }

  lemma BetweenCommits(g: Geometry, s: State, step: Step)
    requires Enabled(g, s, step) && ByProcess(step) && s.phase.Idle?
    ensures Do(g, s, step).phase in {Idle, Cleared, Filling(0)}
  {
  }

  lemma DiskKeptByProcess(g: Geometry, s: State, step: Step)
    requires Inv(g, s) && Enabled(g, s, step) && ByProcess(step)
    requires AdmissionInv(g, Do(g, s, step)) && |Do(g, s, step).lh| < g.size
    ensures DiskInv(g, Do(g, s, step))
  {
    ProcessDisk(g, s, step);
    if s.phase.Idle? {
      BetweenCommits(g, s, step);
    } else {
      DuringCommit(g, s, step);
    }
    DiskInvFrame(g, s, Do(g, s, step));
  }

  lemma DiskInvFrame(g: Geometry, s: State, s': State)
    requires AdmissionInv(g, s) && |s.lh| < g.size && DiskInv(g, s) && AdmissionInv(g, s') && |s'.lh| < g.size
    requires s'.disk == s.disk && s'.committed == s.committed && |s'.bufs| == |s.bufs|
    requires !s.phase.Idle? ==> s'.lh == s.lh && s'.phase == s.phase && SameDirty(s, s')
    requires s.phase.Idle? ==> s'.phase in {Idle, Cleared, Filling(0)}
    ensures DiskInv(g, s')
  {
    if s.phase.Filling? || s.phase.Installing? {
      forall u | 0 <= u < |s.lh| && (s.phase.Filling? ==> u < s.phase.t) ensures SlotHolds(g, s', u) {
        SlotCarries(g, s, s', u);
      }
    }
  }

  /** A valid buffer is what its block reads as. */
  lemma ViewIs(g: Geometry, s: State, i: nat)
    requires CacheInv(g, s) && i < NBUF && s.bufs[i].valid
    ensures s.bufs[i].blockno < |s.disk| && View(s, s.bufs[i].blockno) == s.bufs[i].data
  {
    var b := s.bufs[i].blockno;
    var k :| 0 <= k < NBUF && s.bufs[k].valid && s.bufs[k].blockno == b && View(s, b) == s.bufs[k].data;
  }

  /** A block with no dirty and no touched copy reads as on disk. */
  lemma ViewOfSettled(g: Geometry, s: State, b: nat)
    requires CacheInv(g, s) && b < |s.disk|
    requires forall i :: 0 <= i < NBUF && s.bufs[i].valid && s.bufs[i].blockno == b ==>
      !s.bufs[i].dirty && !s.bufs[i].touched
    ensures View(s, b) == s.disk[b]
  {
  }

  lemma DiskKeptByWriteSlot(g: Geometry, s: State, step: Step)
    requires Inv(g, s) && step.WriteSlot? && Enabled(g, s, step)
    requires AdmissionInv(g, Do(g, s, step))
    ensures DiskInv(g, Do(g, s, step))
  {
    var s' := Do(g, s, step);
    var t := s.phase.t;
    forall u | 0 <= u < t ensures SlotHolds(g, s', u) {
      SlotCarries(g, s, s', u);
    }
    forall k | 0 <= k < NBUF && s'.bufs[k].dirty && s'.bufs[k].blockno == s.lh[t] ensures k == step.j {}
    assert SlotHolds(g, s', t);
  }

  lemma DiskKeptByWriteHeader(g: Geometry, s: State, step: Step)
    requires Inv(g, s) && step.WriteHeader? && Enabled(g, s, step)
    requires AdmissionInv(g, Do(g, s, step))
    ensures DiskInv(g, Do(g, s, step))
  {
    var s' := Do(g, s, step);
    HeadRoundTrip(s.bufs[step.i].data, s.lh);
    forall u | 0 <= u < |s.lh| ensures SlotHolds(g, s', u) && s'.committed[s.lh[u]] == s'.disk[g.Slot(u)] {
      assert SlotHolds(g, s, u);
      SlotCarries(g, s, s', u);
      assert Pinned(s, Unsettled(s)[u]);
      var k :| 0 <= k < NBUF && s.bufs[k].dirty && s.bufs[k].blockno == s.lh[u];
      ViewIs(g, s, k);
    }
    forall h | 0 <= h < g.start && h !in s.lh ensures s'.committed[h] == s'.disk[h] {
      ViewOfSettled(g, s, h);
    }
  }

  /** Home blocks already installed, and the one just installed, are as committed. */
  lemma InstalledHomes(g: Geometry, lh: seq<Word>, t: nat, d: Image, d': Image, committed: Image)
    requires HomesOk(g, lh) && t < |lh| && g.Fits(d) && |committed| == |d|
    requires d' == d[lh[t] := d[g.Slot(t)]] && committed[lh[t]] == d[g.Slot(t)]
    requires forall u :: 0 <= u < t ==> d[lh[u]] == committed[lh[u]]
    requires forall h :: 0 <= h < g.start && h !in lh ==> committed[h] == d[h]
    ensures forall u :: 0 <= u < t + 1 ==> d'[lh[u]] == committed[lh[u]]
    ensures forall h :: 0 <= h < g.start && h !in lh ==> committed[h] == d'[h]
  {
  }

  /** One more home block installed. */
  lemma InstalledDisk(g: Geometry, s: State, s': State)
    requires AdmissionInv(g, s) && |s.lh| < g.size && DiskInv(g, s) && AdmissionInv(g, s')
    requires s.phase.Installing? && s.phase.t < |s.lh|
    requires s'.lh == s.lh && s'.phase == Installing(s.phase.t + 1) && s'.committed == s.committed
    requires |s'.bufs| == |s.bufs| && SameDirty(s, s')
    requires s'.disk == s.disk[s.lh[s.phase.t] := s.disk[g.Slot(s.phase.t)]]
    ensures DiskInv(g, s')
  {
    forall u | 0 <= u < |s.lh| ensures SlotHolds(g, s', u) && s'.committed[s.lh[u]] == s'.disk[g.Slot(u)] {
      assert SlotHolds(g, s, u);
      SlotCarries(g, s, s', u);
    }
    InstalledHomes(g, s.lh, s.phase.t, s.disk, s'.disk, s.committed);
  }

  lemma DiskKeptByInstall(g: Geometry, s: State, step: Step)
    requires Inv(g, s) && step.Install? && Enabled(g, s, step)
    requires AdmissionInv(g, Do(g, s, step))
    ensures DiskInv(g, Do(g, s, step))
  {
    assert BufOk(g, s, s.bufs[step.i]);
    InstalledDisk(g, s, Do(g, s, step));
  }

  lemma DiskKeptByClearHeader(g: Geometry, s: State, step: Step)
    requires Inv(g, s) && step.ClearHeader? && Enabled(g, s, step)
    requires AdmissionInv(g, Do(g, s, step))
    ensures DiskInv(g, Do(g, s, step))
  {
    HeadRoundTrip(s.bufs[step.i].data, []);
  }

  /** What a process about to log holds, another process leaves alone. */
  lemma PassedByOther(g: Geometry, s: State, step: Step, p: nat)
    requires PassedInv(g, s) && Enabled(g, s, step) && ByProcess(step) && p in s.passed && step.p != p
    ensures MayLog(g, Do(g, s, step), p, s.passed[p])
  {
    assert MayLog(g, s, p, s.passed[p]);
  }

  lemma PassedKept(g: Geometry, s: State, step: Step)
    requires PassedInv(g, s) && Enabled(g, s, step) && ByProcess(step)
    ensures PassedInv(g, Do(g, s, step))
  {
    var s' := Do(g, s, step);
    forall p | p in s'.passed ensures MayLog(g, s', p, s'.passed[p]) {
      if step.p != p {
        PassedByOther(g, s, step, p);
      }
    }
  }

  lemma CoreKeptByProcess(g: Geometry, s: State, step: Step)
    requires CoreInv(g, s) && Enabled(g, s, step) && ByProcess(step)
    ensures CoreInv(g, Do(g, s, step))
  {
    AdmissionKept(g, s, step);
    CacheKeptByProcess(g, s, step);
    PinKeptByProcess(g, s, step);
    PassedKept(g, s, step);
  }

  lemma CoreKeptByCommit(g: Geometry, s: State, step: Step)
    requires CoreInv(g, s) && Enabled(g, s, step) && ByCommitter(step)
    ensures CoreInv(g, Do(g, s, step))
  {
    AdmissionKept(g, s, step);
    CacheKeptByCommit(g, s, step);
    if step.Install? {
      PinKeptByInstall(g, s, step);
    } else {
      PinKeptByCommit(g, s, step);
    }
    assert forall p :: p in s.passed ==> p in s.ops;
  }

  lemma CacheByReboot(g: Geometry, s: State)
    requires CleanCache(s.disk, s.bufs)
    ensures CacheInv(g, s)
  {
  }

  /** A rebooted machine has a cache that agrees with its disk and nothing else in memory. */
  lemma CoreByReboot(g: Geometry, s: State, step: Step)
    requires step.Reboot? && Enabled(g, s, step)
    ensures CoreInv(g, Do(g, s, step))
  {
    var s' := Do(g, s, step);
    CacheByReboot(g, s');
    assert Unsettled(s') == [];
    assert Unspent(s'.ops) == 0;
  }

  lemma StepKeepsCore(g: Geometry, s: State, step: Step)
    requires CoreInv(g, s) && Enabled(g, s, step)
    ensures CoreInv(g, Do(g, s, step))
  {
    if step.Reboot? {
      CoreByReboot(g, s, step);
    } else if ByCommitter(step) {
      CoreKeptByCommit(g, s, step);
    } else {
      CoreKeptByProcess(g, s, step);
    }
  }

  lemma DiskKeptByCommit(g: Geometry, s: State, step: Step)
    requires Inv(g, s) && Enabled(g, s, step) && ByCommitter(step) && AdmissionInv(g, Do(g, s, step))
    ensures |Do(g, s, step).lh| < g.size && DiskInv(g, Do(g, s, step))
  {
    match step
    case WriteSlot(_, _) => DiskKeptByWriteSlot(g, s, step);
    case WriteHeader(_) => DiskKeptByWriteHeader(g, s, step);
    case Install(_, _) => DiskKeptByInstall(g, s, step);
    case ClearHeader(_) => DiskKeptByClearHeader(g, s, step);
    case FinishCommit =>
  }

  lemma InvRecovers(g: Geometry, s: State)
    requires Inv(g, s)
    ensures DiskOk(g, s.disk) && SameHomes(g, Recover(g, s.disk), s.committed)
  {
    if s.phase.Installing? {
      RecoverAt(g, s.disk);
      forall h | 0 <= h < g.start ensures Recover(g, s.disk)[h] == s.committed[h] {
        if u :| 0 <= u < |s.lh| && s.lh[u] == h {
        }
      }
    } else {
      RecoverClear(g, s.disk);
    }
  }

  lemma RebootedHomes(g: Geometry, s: State, ks: seq<nat>)
    requires Inv(g, s)
    ensures DiskOk(g, s.disk) && SameHomes(g, Rebooted(g, s.disk, ks), s.committed)
  {
    InvRecovers(g, s);
    RecoverySurvivesCrashes(g, s.disk, ks);
  }

  lemma DiskKeptByReboot(g: Geometry, s: State, step: Step)
    requires Inv(g, s) && step.Reboot? && Enabled(g, s, step) && AdmissionInv(g, Do(g, s, step))
    ensures DiskInv(g, Do(g, s, step))
  {
    RebootedHomes(g, s, step.ks);
    RecoverAt(g, CrashedRecoveries(g, s.disk, step.ks));
  }

  lemma StepKeepsInv(g: Geometry, s: State, step: Step)
    requires Inv(g, s) && Enabled(g, s, step) && |Do(g, s, step).lh| < g.size
    ensures Inv(g, Do(g, s, step))
  {
    StepKeepsCore(g, s, step);
    if step.Reboot? {
      DiskKeptByReboot(g, s, step);
    } else if ByCommitter(step) {
      DiskKeptByCommit(g, s, step);
    } else {
      DiskKeptByProcess(g, s, step);
    }
  }

  // ---------------------------------------------------------------- theorems over all runs

  ghost predicate Next(g: Geometry, s: State, step: Step, s': State) {
    Enabled(g, s, step) && s' == Do(g, s, step)
  }

  /** s' is reached from s by the given steps, in order. */
  ghost predicate Run(g: Geometry, s: State, steps: seq<Step>, s': State)
    decreases |steps|
  {
    if steps == [] then s' == s
    else
      var n := |steps| - 1;
      exists m :: Run(g, s, steps[..n], m) && Next(g, m, steps[n], s')
  }

  lemma InitInv(g: Geometry, s: State)
    requires Init(g, s)
    ensures Inv(g, s)
  {
  }

  lemma {:induction false} RunKeepsCore(g: Geometry, s: State, steps: seq<Step>, s': State)
    requires CoreInv(g, s) && Run(g, s, steps, s')
    ensures CoreInv(g, s')
    decreases |steps|
  {
    if steps != [] {
      var n := |steps| - 1;
      var m :| Run(g, s, steps[..n], m) && Next(g, m, steps[n], s');
      RunKeepsCore(g, s, steps[..n], m);
      StepKeepsCore(g, m, steps[n]);
    }
  }

  /** A run during which logged blocks never outgrow the log region. */
  ghost predicate RunWithin(g: Geometry, s: State, steps: seq<Step>, s': State)
    decreases |steps|
  {
    && |s'.lh| < g.size
    && if steps == [] then s' == s
       else
         var n := |steps| - 1;
         exists m :: RunWithin(g, s, steps[..n], m) && Next(g, m, steps[n], s')
  }

  lemma {:induction false} RunKeepsInv(g: Geometry, s: State, steps: seq<Step>, s': State)
    requires Inv(g, s) && RunWithin(g, s, steps, s')
    ensures Inv(g, s')
    decreases |steps|
  {
    if steps != [] {
      var n := |steps| - 1;
      var m :| RunWithin(g, s, steps[..n], m) && Next(g, m, steps[n], s');
      RunKeepsInv(g, s, steps[..n], m);
      StepKeepsInv(g, m, steps[n]);
    }
  }

  /** With a roomy log every run is one. */
  lemma {:induction false} RoomyRunsWithin(g: Geometry, s: State, steps: seq<Step>, s': State)
    requires Roomy(g) && CoreInv(g, s) && Run(g, s, steps, s')
    ensures RunWithin(g, s, steps, s')
    decreases |steps|
  {
    RunKeepsCore(g, s, steps, s');
    if steps != [] {
      var n := |steps| - 1;
      var m :| Run(g, s, steps[..n], m) && Next(g, m, steps[n], s');
      RoomyRunsWithin(g, s, steps[..n], m);
    }
  }

  /**
    Crash safety for a log of any size, as long as logged blocks have slots: through any number of earlier
    crashes, whatever the processes and the committer were doing, a crash followed by recovery, itself
    interrupted any number of times, restores exactly the home blocks of the last commit point.
   */
  lemma CrashSafetyWithin(g: Geometry, s: State, steps: seq<Step>, s': State, ks: seq<nat>)
    requires Init(g, s) && RunWithin(g, s, steps, s')
    ensures DiskOk(g, s'.disk)
    ensures SameHomes(g, Rebooted(g, s'.disk, ks), s'.committed)
  {
    InitInv(g, s);
    RunKeepsInv(g, s, steps, s');
    RebootedHomes(g, s', ks);
  }

  /** Crash safety in every reachable state of every run, for a roomy log. */
  lemma CrashSafety(g: Geometry, s: State, steps: seq<Step>, s': State, ks: seq<nat>)
    requires Roomy(g) && Init(g, s) && Run(g, s, steps, s')
    ensures DiskOk(g, s'.disk)
    ensures SameHomes(g, Rebooted(g, s'.disk, ks), s'.committed)
  {
    InitInv(g, s);
    RoomyRunsWithin(g, s, steps, s');
    CrashSafetyWithin(g, s, steps, s', ks);
  }

  /** The commit point moves only with the header write, to what every block reads as while no operation runs. */
  lemma CommitPoint(g: Geometry, s: State, step: Step)
    requires Inv(g, s) && Enabled(g, s, step)
    ensures !step.WriteHeader? ==> Do(g, s, step).committed == s.committed
    ensures step.WriteHeader? ==>
      s.ops == map[] && forall h :: 0 <= h < g.start ==> Do(g, s, step).committed[h] == View(s, h)
  {
  }

  /** v is what block b reads as: all valid copies say v, and so does the disk if there is none. */
  lemma ViewChar(s: State, b: nat, v: Block)
    requires b < |s.disk|
    requires forall i :: 0 <= i < |s.bufs| && s.bufs[i].valid && s.bufs[i].blockno == b ==> s.bufs[i].data == v
    requires s.disk[b] == v || exists i :: 0 <= i < |s.bufs| && s.bufs[i].valid && s.bufs[i].blockno == b
    ensures View(s, b) == v
  {
  }

  lemma ViewCases(g: Geometry, s: State, b: nat)
    requires CacheInv(g, s) && b < |s.disk|
    ensures forall i :: 0 <= i < NBUF && s.bufs[i].valid && s.bufs[i].blockno == b ==> s.bufs[i].data == View(s, b)
    ensures (forall i :: 0 <= i < NBUF && s.bufs[i].valid && s.bufs[i].blockno == b ==>
        !s.bufs[i].dirty && !s.bufs[i].touched) ==>
      View(s, b) == s.disk[b]
  {
    forall i | 0 <= i < NBUF && s.bufs[i].valid && s.bufs[i].blockno == b ensures s.bufs[i].data == View(s, b) {
      ViewIs(g, s, i);
    }
  }

  /** Replacing one buffer leaves what h reads as, if what is dropped was clean and what is added agrees. */
  lemma ViewOneBuf(g: Geometry, s: State, s': State, i: nat, h: nat)
    requires CacheInv(g, s) && h < |s.disk| == |s'.disk| && i < NBUF == |s'.bufs|
    requires forall k :: 0 <= k < NBUF && k != i ==> s'.bufs[k] == s.bufs[k]
    requires s.bufs[i].valid && s.bufs[i].blockno == h ==>
      (s'.bufs[i].valid && s'.bufs[i].blockno == h) || (!s.bufs[i].dirty && !s.bufs[i].touched)
    requires s'.bufs[i].valid && s'.bufs[i].blockno == h ==> s'.bufs[i].data == View(s, h)
    requires s'.disk[h] == s.disk[h] || (s'.bufs[i].valid && s'.bufs[i].blockno == h)
    ensures View(s', h) == View(s, h)
  {
    ViewCases(g, s, h);
    if k :| 0 <= k < NBUF && s.bufs[k].valid && s.bufs[k].blockno == h && (s.bufs[k].dirty || s.bufs[k].touched) {
      assert s'.bufs[k].valid && s'.bufs[k].blockno == h;
    }
    ViewChar(s', h, View(s, h));
  }

  /** Loading an absent block, or dropping an unheld clean copy, shows the same contents. */
  lemma ViewKeptByLoading(g: Geometry, s: State, step: Step, h: nat)
    requires Inv(g, s) && Enabled(g, s, step) && (step.GetMiss? || step.Fetch?) && h < |s.disk|
    ensures View(Do(g, s, step), h) == View(s, h)
  {
    assert BufOk(g, s, s.bufs[step.i]);
    if step.Fetch? && s.bufs[step.i].blockno == h {
      assert forall k :: 0 <= k < NBUF && s.bufs[k].inUse && s.bufs[k].blockno == h ==> k == step.i;
      ViewOfSettled(g, s, h);
    }
    ViewOneBuf(g, s, Do(g, s, step), step.i, h);
  }

  /** A step that leaves every buffer its block, contents and validity shows the same contents. */
  lemma ViewKeptInPlace(g: Geometry, s: State, s': State, h: nat)
    requires CacheInv(g, s) && h < |s.disk| && s'.disk == s.disk && |s'.bufs| == NBUF
    requires forall i :: 0 <= i < NBUF ==>
      && s'.bufs[i].valid == s.bufs[i].valid && s'.bufs[i].blockno == s.bufs[i].blockno
      && s'.bufs[i].data == s.bufs[i].data
    ensures View(s', h) == View(s, h)
  {
    ViewCases(g, s, h);
    ViewChar(s', h, View(s, h));
  }

  lemma ViewKeptByProcess(g: Geometry, s: State, step: Step, h: nat)
    requires Inv(g, s) && Enabled(g, s, step) && ByProcess(step) && h < |s.disk|
    requires step.Modify? ==> s.bufs[step.i].blockno != h
    ensures View(Do(g, s, step), h) == View(s, h)
  {
    if step.GetMiss? || step.Fetch? {
      ViewKeptByLoading(g, s, step, h);
    } else if step.Modify? {
      ViewOneBuf(g, s, Do(g, s, step), step.i, h);
    } else {
      ViewKeptInPlace(g, s, Do(g, s, step), h);
    }
  }

  /** The home block being installed is replaced, on disk and in the cache, by what it already reads as. */
  lemma InstallWritesView(g: Geometry, s: State, step: Step)
    requires Inv(g, s) && Enabled(g, s, step) && step.Install?
    ensures s.bufs[step.i].data == s.bufs[step.j].data
  {
    assert Pinned(s, Unsettled(s)[0]);
    assert s.bufs[step.j].dirty;
    assert SlotHolds(g, s, s.phase.t);
    assert BufOk(g, s, s.bufs[step.i]);
  }

  lemma ViewKeptByCommit(g: Geometry, s: State, step: Step, h: nat)
    requires Inv(g, s) && Enabled(g, s, step) && ByCommitter(step) && h < g.start
    ensures h < |s.disk| && View(Do(g, s, step), h) == View(s, h)
  {
    var s' := Do(g, s, step);
    ViewCases(g, s, h);
    if step.FinishCommit? {
      ViewOneBuf(g, s, s', 0, h);
    } else {
      var i, data := CommitterWritesBack(g, s, step);
      if step.Install? {
        InstallWritesView(g, s, step);
      }
      ViewOneBuf(g, s, s', i, h);
    }
  }

  lemma ViewAfterReboot(g: Geometry, s: State, step: Step, h: nat)
    requires Inv(g, s) && Enabled(g, s, step) && step.Reboot? && h < g.start
    ensures h < |s.committed| && View(Do(g, s, step), h) == s.committed[h]
  {
    RebootedHomes(g, s, step.ks);
    CoreByReboot(g, s, step);
    ViewOfSettled(g, Do(g, s, step), h);
  }

  /** The step is an operation writing into its buffer of block h. */
  predicate Writes(s: State, step: Step, h: nat) {
    step.Modify? && step.i < |s.bufs| && s.bufs[step.i].blockno == h
  }

  lemma ViewOfWritten(g: Geometry, s: State, step: Step)
    requires CacheInv(g, s) && Enabled(g, s, step) && step.Modify?
    ensures s.bufs[step.i].blockno < |s.disk| && View(Do(g, s, step), s.bufs[step.i].blockno) == step.data
  {
    assert BufOk(g, s, s.bufs[step.i]);
    forall k | 0 <= k < NBUF && k != step.i && s.bufs[k].valid ensures s.bufs[k].blockno != s.bufs[step.i].blockno {
      assert BufOk(g, s, s.bufs[k]);
    }
    var s' := Do(g, s, step);
    assert s'.bufs[step.i].valid && s'.bufs[step.i].data == step.data;
    ViewChar(s', s.bufs[step.i].blockno, step.data);
  }

  /**
    The logical disk changes only by an operation writing into a buffer it holds: then the block it names reads
    as the data written, and no other home block changes. After a crash and recovery every home block
    reads as at the last commit point. No other step alters what any home block reads as.
   */
  lemma LogicalDisk(g: Geometry, s: State, step: Step, h: nat)
    requires Inv(g, s) && Enabled(g, s, step) && h < g.start
    ensures Writes(s, step, h) ==> View(Do(g, s, step), h) == step.data
    ensures step.Reboot? ==> View(Do(g, s, step), h) == s.committed[h]
    ensures !Writes(s, step, h) && !step.Reboot? ==> View(Do(g, s, step), h) == View(s, h)
  {
    if step.Reboot? {
      ViewAfterReboot(g, s, step, h);
    } else if Writes(s, step, h) {
      ViewOfWritten(g, s, step);
    } else if ByCommitter(step) {
      ViewKeptByCommit(g, s, step, h);
    } else {
      ViewKeptByProcess(g, s, step, h);
    }
  }

  /** Buffer i still has its block, and is clean only if the step wrote its contents home. */
  ghost predicate StaysWithBlock(s: State, step: Step, s': State, i: nat) {
    && i < |s.bufs| == |s'.bufs| && s'.bufs[i].inUse && s'.bufs[i].valid && s'.bufs[i].blockno == s.bufs[i].blockno
    && (!s'.bufs[i].dirty ==>
      && step.Install? && step.j == i && s.bufs[i].blockno < |s'.disk|
      && s'.disk[s.bufs[i].blockno] == s.bufs[i].data)
  }

  /** No step of a process takes a dirty buffer away from its block or makes it clean. */
  lemma DirtyKeptByProcess(g: Geometry, s: State, step: Step, i: nat)
    requires CoreInv(g, s) && Enabled(g, s, step) && ByProcess(step) && i < NBUF && s.bufs[i].dirty
    ensures StaysWithBlock(s, step, Do(g, s, step), i)
  {
    assert BufOk(g, s, s.bufs[i]);
    if !step.BeginOp? && !step.EndOp? && !step.TestRoom? && step.i != i {
      assert Do(g, s, step).bufs[i] == s.bufs[i];
    }
  }

  lemma DirtyKeptByCommit(g: Geometry, s: State, step: Step, i: nat)
    requires Inv(g, s) && Enabled(g, s, step) && ByCommitter(step) && i < NBUF && s.bufs[i].dirty
    ensures StaysWithBlock(s, step, Do(g, s, step), i)
  {
    assert BufOk(g, s, s.bufs[i]);
    if !step.FinishCommit? {
      var k, data := CommitterWritesBack(g, s, step);
      WriteBackKeeps(s, Do(g, s, step), k, data, i);
      assert s.bufs[i].blockno in Unsettled(s) && s.bufs[i].blockno < g.start;
      if step.Install? {
        InstallWritesView(g, s, step);
      }
    }
  }

  lemma WriteBackKeeps(s: State, s': State, k: nat, data: Block, i: nat)
    requires WroteBack(s, s', k, data) && i < |s.bufs| && s.bufs[i].inUse && s.bufs[i].valid
    ensures |s'.bufs| == |s.bufs| && s'.bufs[i].inUse && s'.bufs[i].valid && s'.bufs[i].blockno == s.bufs[i].blockno
    ensures i != k ==> s'.bufs[i] == s.bufs[i]
    ensures i == k ==> s.bufs[i].blockno < |s'.disk| && s'.disk[s.bufs[i].blockno] == data
  {
  }

  /** A dirty buffer stays assigned to its block until the committer has written that block home. */
  lemma DirtyNeverRecycled(g: Geometry, s: State, step: Step, i: nat)
    requires Inv(g, s) && Enabled(g, s, step) && !step.Reboot? && i < NBUF && s.bufs[i].dirty
    ensures StaysWithBlock(s, step, Do(g, s, step), i)
  {
    if ByCommitter(step) {
      DirtyKeptByCommit(g, s, step, i);
    } else {
      DirtyKeptByProcess(g, s, step, i);
    }
  }

  /** Once the header is cleared no buffer is dirty, and every valid buffer equals its disk block. */
  lemma CleanAfterCommit(g: Geometry, s: State)
    requires Inv(g, s) && s.phase.Cleared?
    ensures forall i :: 0 <= i < NBUF ==> !s.bufs[i].dirty
    ensures forall i :: 0 <= i < NBUF && s.bufs[i].valid ==> s.bufs[i].data == s.disk[s.bufs[i].blockno]
  {
    assert Unsettled(s) == [];
  }
}
