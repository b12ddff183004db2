/**
  A run of the log protocol through one whole transaction, from `begin_op` to the end of the commit.
 */
module LogTransaction {
  import opened Basics
  import opened RedoLog
  import opened LogProtocol
  import opened LogAdmission

  /** Buffer i is held by p, with the contents of block b. */
  predicate InHand(s: State, p: nat, i: nat, b: nat) {
    && i < |s.bufs| && b < |s.disk| && s.bufs[i] == Buf(true, b, HeldBy(p), true, false, false, s.disk[b])
  }

  /** `bread` of a block that is not cached, into an unused buffer. */
  lemma Reads(g: Geometry, s: State, p: nat, i: nat, b: nat) returns (s': State)
    requires Reachable(g, s) && p !in s.passed && !Cached(s, b) && b < |s.disk|
    requires i < |s.bufs| && s.bufs[i].holder.Unheld? && !s.bufs[i].dirty
    ensures Reachable(g, s') && InHand(s', p, i, b) && s' == SetBuf(s, i, s'.bufs[i])
  {
    ReachStep(g, s, GetMiss(p, i, b));
    var m := Do(g, s, GetMiss(p, i, b));
    ReachStep(g, m, Fetch(p, i));
    s' := Do(g, m, Fetch(p, i));
  }

  /** Buffers from k on are not in use. */
  ghost predicate Unused(s: State, k: nat) {
    |s.bufs| == NBUF && forall i :: k <= i < NBUF ==> !s.bufs[i].inUse && !s.bufs[i].dirty && s.bufs[i].holder.Unheld?
  }

  /** Process 1 is to commit a log of one block b, with contents d in buffer 0, on the disk given. */
  ghost predicate ToCommit(g: Geometry, s: State, disk: Image, b: nat, d: Block, k: nat, phase: Phase) {
    && |disk| == g.start + g.size && b < g.start && s.disk == disk && s.lh == [b] && s.ops == map[] && s.passed == map[]
    && s.phase == phase && s.committer == 1 && Unused(s, k) && k >= 1
    && s.bufs[0].inUse && s.bufs[0].blockno == b && s.bufs[0].valid && s.bufs[0].dirty && s.bufs[0].data == d
  }

  lemma WritesOne(g: Geometry, b: nat, d: Block) returns (s: State)
    requires Usable(g) && 2 <= g.size && b < g.start
    ensures Reachable(g, s) && ToCommit(g, s, EmptyState(g).disk, b, d, 1, Filling(0)) && s.bufs[0].holder.Unheld?
  {
    EmptyIsReachable(g);
    var s1 := OpensNext(g, EmptyState(g), 1);
    var s2 := Reads(g, s1, 1, 0, b);
    ReachStep(g, s2, Modify(1, 0, d));
    var s3 := Do(g, s2, Modify(1, 0, d));
    s := LogsAndEnds(g, s3, b, d);
  }

  /** Process 1, in an operation that has logged `n` blocks, has written d into buffer 0, for block b. */
  ghost predicate Writing(g: Geometry, s: State, b: nat, d: Block, n: nat, logged: bool) {
    && |s.disk| == g.start + g.size && b < g.start && s.ops == map[1 := n] && s.phase == Idle && Unused(s, 1)
    && s.bufs[0] == Buf(true, b, HeldBy(1), true, logged, !logged, d)
  }

  lemma LogsAndEnds(g: Geometry, s: State, b: nat, d: Block) returns (s': State)
    requires Usable(g) && 2 <= g.size && Reachable(g, s) && Writing(g, s, b, d, 0, false)
    requires s.passed == map[] && s.lh == []
    ensures Reachable(g, s') && ToCommit(g, s', s.disk, b, d, 1, Filling(0)) && s'.bufs[0].holder.Unheld?
  {
    assert MayLog(g, s, 1, 0) && !LogWritePanics(g, s);
    var s1 := Tests(g, s, 1, 0);
    s' := AddsAndEnds(g, s1, b, d);
  }

  lemma AddsAndEnds(g: Geometry, s: State, b: nat, d: Block) returns (s': State)
    requires Usable(g) && Reachable(g, s) && Writing(g, s, b, d, 0, false) && s.passed == map[1 := 0] && s.lh == []
    ensures Reachable(g, s') && ToCommit(g, s', s.disk, b, d, 1, Filling(0)) && s'.bufs[0].holder.Unheld?
  {
    assert MayLog(g, s, 1, 0);
    var s1 := AddsIt(g, s, 1, 0);
    Added(g, s, s1, b, d);
    s' := ReleasesAndEnds(g, s1, b, d);
  }

  lemma AddsIt(g: Geometry, s: State, p: nat, i: nat) returns (s': State)
    requires Reachable(g, s) && p in s.passed && s.passed[p] == i && MayLog(g, s, p, i) && s.bufs[i].blockno !in s.lh
    ensures Reachable(g, s') && NowLogged(s, s', p, i)
  {
    ReachStep(g, s, LogWrite(p, i));
    LogWriteAdds(g, s, p, i);
    s' := Do(g, s, LogWrite(p, i));
  }

  /** The block of buffer i was added to the log by p. */
  ghost predicate NowLogged(s: State, s': State, p: nat, i: nat) {
    && i < |s.bufs| && s.bufs[i].blockno < 0x8000_0000 && p in s.ops
    && s' == s.(bufs := s.bufs[i := s.bufs[i].(dirty := true, touched := false)],
                lh := s.lh + [s.bufs[i].blockno as Word], ops := s.ops[p := s.ops[p] + 1], passed := s.passed - {p})
  }

  lemma Added(g: Geometry, s: State, s': State, b: nat, d: Block)
    requires Writing(g, s, b, d, 0, false) && s.passed == map[1 := 0] && s.lh == [] && NowLogged(s, s', 1, 0)
    ensures Writing(g, s', b, d, 1, true) && s'.passed == map[] && s'.lh == [b] && s'.disk == s.disk
  {
    assert s'.passed == map[] && s'.ops == map[1 := 1] && s'.lh == [b];
  }

  lemma ReleasesAndEnds(g: Geometry, s: State, b: nat, d: Block) returns (s': State)
    requires Reachable(g, s) && Writing(g, s, b, d, 1, true) && s.passed == map[] && s.lh == [b]
    ensures Reachable(g, s') && ToCommit(g, s', s.disk, b, d, 1, Filling(0)) && s'.bufs[0].holder.Unheld?
  {
    var s1 := Releases(g, s, 1, 0);
    s' := EndsIt(g, s1, b);
  }

  lemma EndsIt(g: Geometry, s: State, b: nat) returns (s': State)
    requires Reachable(g, s) && s.passed == map[] && s.ops == map[1 := 1] && s.lh == [b]
    requires forall i :: 0 <= i < |s.bufs| ==> s.bufs[i].holder.Unheld?
    ensures Reachable(g, s') && s' == s.(ops := map[], committer := 1, phase := Filling(0))
  {
    ReachStep(g, s, EndOp(1));
    s' := Do(g, s, EndOp(1));
    assert s.ops - {1} == map[];
  }

  lemma FillsSlot(g: Geometry, s: State, disk: Image, b: nat, d: Block) returns (s': State)
    requires Reachable(g, s) && 2 <= g.size && ToCommit(g, s, disk, b, d, 1, Filling(0)) && s.bufs[0].holder.Unheld?
    ensures Reachable(g, s') && ToCommit(g, s', disk[g.Slot(0) := d], b, d, 2, Filling(1))
    ensures s'.bufs[0].holder == HeldBy(1) && InHand(s', 1, 1, g.Slot(0))
  {
    var s1 := Reads(g, s, 1, 1, g.Slot(0));
    ReachStep(g, s1, GetHit(1, 0));
    var s2 := Do(g, s1, GetHit(1, 0));
    ReachStep(g, s2, WriteSlot(1, 0));
    s' := Do(g, s2, WriteSlot(1, 0));
  }

  lemma WritesHead(g: Geometry, s: State, disk: Image, b: nat, d: Block, head: Block) returns (s': State)
    requires Reachable(g, s) && 2 <= g.size && ToCommit(g, s, disk, b, d, 2, Filling(1))
    requires s.bufs[0].holder == HeldBy(1) && InHand(s, 1, 1, g.Slot(0)) && head == EncodeHead(disk[g.start], s.lh)
    ensures Reachable(g, s') && ToCommit(g, s', disk[g.start := head], b, d, 3, Installing(0))
    ensures s'.bufs[0].holder == HeldBy(1) && InHand(s', 1, 1, g.Slot(0)) && InHand(s', 1, 2, g.start)
  {
    HeadNotCached(g, s, disk, b, d);
    var s1 := Reads(g, s, 1, 2, g.start);
    s' := HeadGoesOut(g, s1, head);
    HeadIsOut(g, s, s1, s', disk, b, d, head);
  }

  lemma HeadNotCached(g: Geometry, s: State, disk: Image, b: nat, d: Block)
    requires 2 <= g.size && ToCommit(g, s, disk, b, d, 2, Filling(1)) && InHand(s, 1, 1, g.Slot(0))
    ensures !Cached(s, g.start) && g.start < |s.disk| && 1 !in s.passed
    ensures 2 < |s.bufs| && s.bufs[2].holder.Unheld? && !s.bufs[2].dirty
  {
    forall i | 0 <= i < |s.bufs| ensures !(s.bufs[i].inUse && s.bufs[i].blockno == g.start) {
      assert i >= 2 ==> !s.bufs[i].inUse;
    }
  }

  lemma HeadIsOut(g: Geometry, s: State, s1: State, s': State, disk: Image, b: nat, d: Block, head: Block)
    requires 2 <= g.size && ToCommit(g, s, disk, b, d, 2, Filling(1))
    requires s.bufs[0].holder == HeldBy(1) && InHand(s, 1, 1, g.Slot(0))
    requires 2 < |s1.bufs| && InHand(s1, 1, 2, g.start) && s1 == SetBuf(s, 2, s1.bufs[2])
    requires s' == WriteBack(s1, 2, head).(phase := Installing(0), committed := s'.committed)
    ensures ToCommit(g, s', disk[g.start := head], b, d, 3, Installing(0))
    ensures s'.bufs[0].holder == HeldBy(1) && InHand(s', 1, 1, g.Slot(0)) && InHand(s', 1, 2, g.start)
  {
    assert s'.bufs[0] == s.bufs[0] && s'.bufs[1] == s.bufs[1];
  }

  lemma HeadGoesOut(g: Geometry, s: State, head: Block) returns (s': State)
    requires Reachable(g, s) && |s.lh| == 1 && s.phase == Filling(1) && s.committer == 1
    requires InHand(s, 1, 2, g.start) && head == EncodeHead(s.disk[g.start], s.lh)
    ensures Reachable(g, s')
    ensures s' == WriteBack(s, 2, head).(phase := Installing(0), committed := s'.committed)
  {
    ReachStep(g, s, WriteHeader(2));
    s' := Do(g, s, WriteHeader(2));
  }

  lemma InstallsOne(g: Geometry, s: State, disk: Image, b: nat, d: Block) returns (s': State)
    requires Reachable(g, s) && 2 <= g.size && ToCommit(g, s, disk, b, d, 3, Installing(0)) && disk[g.Slot(0)] == d
    requires s.bufs[0].holder == HeldBy(1) && InHand(s, 1, 1, g.Slot(0)) && InHand(s, 1, 2, g.start)
    ensures Reachable(g, s') && s'.phase == Idle && s'.ops == map[] && s'.lh == []
    ensures s'.disk == disk[b := d][g.start := EncodeHead(disk[g.start], [])] && s'.committed == s.committed
  {
    ReachStep(g, s, Install(1, 0));
    var s1 := Do(g, s, Install(1, 0));
    ReachStep(g, s1, ClearHeader(2));
    var s2 := Do(g, s1, ClearHeader(2));
    ReachStep(g, s2, FinishCommit);
    s' := Do(g, s2, FinishCommit);
  }

  /**
    Any data can be written into any home block: a run through one whole transaction, at the end of which the
    log is idle, the block on the disk is the data, and the other home blocks are as at the start.
   */
  lemma OneTransaction(g: Geometry, b: nat, d: Block) returns (s: State)
    requires Usable(g) && 2 <= g.size && b < g.start
    ensures Reachable(g, s) && s.phase == Idle && s.ops == map[] && s.lh == [] && |s.disk| == g.start + g.size
    ensures forall h :: 0 <= h < g.start ==> s.disk[h] == if h == b then d else EmptyState(g).disk[h]
  {
    var disk := EmptyState(g).disk;
    var s1 := WritesOne(g, b, d);
    var s2 := FillsSlot(g, s1, disk, b, d);
    var disk2 := disk[g.Slot(0) := d];
    var head := EncodeHead(disk2[g.start], s2.lh);
    var s3 := WritesHead(g, s2, disk2, b, d, head);
    s := InstallsOne(g, s3, disk2[g.start := head], b, d);
  }
}
