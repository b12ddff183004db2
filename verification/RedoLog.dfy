/**
  The physical redo log of xv6/log.c on a disk whose one-block writes are atomic.

  A disk image is a sequence of blocks; a block is the 128 32-bit words of its 512 bytes, so the
  log header (`struct logheader`: a count followed by block numbers) is an honest overlay of a block.
  Every procedure of log.c that writes the disk is described by the sequence of one-block writes it
  makes. A crash leaves the disk after some prefix of such a sequence.
 */
module RedoLog {
  import opened Basics

  const MAXOPBLOCKS := 10
  const LOGSIZE := 30 // MAXOPBLOCKS * 3
  const BLOCK_WORDS := 128

  type Block = b: seq<Word> | |b| == BLOCK_WORDS witness seq(BLOCK_WORDS, _ => 0)
  type Image = seq<Block>

  datatype Write = Write(at: nat, data: Block)

  /** `log.start` and `log.size`: the header block, then `size - 1` data slots. */
  datatype Geometry = Geometry(start: nat, size: nat) {
    ghost predicate Fits(d: Image) {
      1 <= size && start + size <= |d| < 0x8000_0000
    }

    function Slot(i: nat): nat {
      start + 1 + i
    }
  }

  // ---------------------------------------------------------------- write sequences

  ghost predicate InBounds(d: Image, ws: seq<Write>) {
    forall i :: 0 <= i < |ws| ==> ws[i].at < |d|
  }

  /** The disk after performing the writes in order. */
  ghost function Apply(d: Image, ws: seq<Write>): (r: Image)
    requires InBounds(d, ws)
    ensures |r| == |d|
  {
    if ws == [] then d
    else
      var last := ws[|ws| - 1];
      Apply(d, ws[..|ws| - 1])[last.at := last.data]
  }

  lemma {:induction false} ApplyConcat(d: Image, a: seq<Write>, b: seq<Write>)
    requires InBounds(d, a) && InBounds(d, b)
    ensures InBounds(d, a + b)
    ensures Apply(d, a + b) == Apply(Apply(d, a), b)
  {
    if b == [] {
      assert a + b == a;
    } else {
      var n := |b| - 1;
      assert (a + b)[..|a + b| - 1] == a + b[..n];
      ApplyConcat(d, a, b[..n]);
    }
  }

  lemma ApplyOne(d: Image, w: Write)
    requires w.at < |d|
    ensures Apply(d, [w]) == d[w.at := w.data]
  {
    assert [w][..0] == [];
  }

  lemma ApplyNext(d: Image, ws: seq<Write>, k: nat)
    requires InBounds(d, ws) && k < |ws|
    ensures ws[..k + 1] == ws[..k] + [ws[k]]
    ensures Apply(d, ws[..k + 1]) == Apply(d, ws[..k])[ws[k].at := ws[k].data]
  {
    assert ws[..k + 1][..k] == ws[..k];
  }

  ghost predicate DistinctTargets(ws: seq<Write>) {
    forall i, j :: 0 <= i < j < |ws| ==> ws[i].at != ws[j].at
  }

  /** Writes to pairwise different blocks: each target holds its data, all else is untouched. */
  lemma {:induction false} ApplyAt(d: Image, ws: seq<Write>)
    requires InBounds(d, ws) && DistinctTargets(ws)
    ensures forall i :: 0 <= i < |ws| ==> Apply(d, ws)[ws[i].at] == ws[i].data
    ensures forall b :: 0 <= b < |d| && (forall i :: 0 <= i < |ws| ==> ws[i].at != b) ==> Apply(d, ws)[b] == d[b]
  {
    if ws != [] {
      ApplyAt(d, ws[..|ws| - 1]);
    }
  }

  // ---------------------------------------------------------------- the header block

  /** `write_head`: overwrite the count and the first |homes| entries, keep the rest of the block. */
  function EncodeHead(b: Block, homes: seq<Word>): (r: Block)
    requires |homes| <= LOGSIZE
  {
    [|homes| as Word] + homes + b[|homes| + 1..]
  }

  function Count(b: Block): Word { b[0] }

  /** `read_head`: the count and that many entries. */
  function DecodeHead(b: Block): seq<Word>
    requires Count(b) <= LOGSIZE
  {
    b[1..1 + Count(b)]
  }

  lemma HeadRoundTrip(b: Block, homes: seq<Word>)
    requires |homes| <= LOGSIZE
    ensures Count(EncodeHead(b, homes)) == |homes|
    ensures DecodeHead(EncodeHead(b, homes)) == homes
    ensures EncodeHead(EncodeHead(b, homes), []) == EncodeHead(b, homes)[0 := 0]
  {
    var r := EncodeHead(b, homes);
    assert EncodeHead(r, []) == [0] + r[1..];
    assert r[1..1 + |homes|] == homes;
  }

  /** Distinct home blocks, below the log. */
  ghost predicate DistinctHomes(g: Geometry, homes: seq<Word>) {
    && (forall i :: 0 <= i < |homes| ==> homes[i] < g.start)
    && (forall i, j :: 0 <= i < j < |homes| ==> homes[i] != homes[j])
  }

  /** What a header may name: distinct home blocks, with a slot for each. */
  ghost predicate HomesOk(g: Geometry, homes: seq<Word>) {
    |homes| <= LOGSIZE && |homes| < g.size && DistinctHomes(g, homes)
  }

  ghost predicate DiskOk(g: Geometry, d: Image) {
    && g.Fits(d)
    && Count(d[g.start]) <= LOGSIZE
    && HomesOk(g, DecodeHead(d[g.start]))
  }

  // ---------------------------------------------------------------- recovery

  /** `install_trans`: copy slot i to the i-th home block. */
  ghost function InstallWrites(g: Geometry, d: Image, homes: seq<Word>): (ws: seq<Write>)
    requires g.Fits(d) && HomesOk(g, homes)
    ensures InBounds(d, ws) && DistinctTargets(ws)
  {
    seq(|homes|, i requires 0 <= i < |homes| => Write(homes[i], d[g.Slot(i)]))
  }

  /** `recover_from_log`: install what the header names, then clear the header. */
  ghost function RecoverWrites(g: Geometry, d: Image): (ws: seq<Write>)
    requires DiskOk(g, d)
    ensures InBounds(d, ws) && |ws| == Count(d[g.start]) + 1 && DistinctTargets(ws)
  {
    InstallWrites(g, d, DecodeHead(d[g.start])) + [Write(g.start, EncodeHead(d[g.start], []))]
  }

  ghost function Recover(g: Geometry, d: Image): (r: Image)
    requires DiskOk(g, d)
    ensures |r| == |d|
  {
    Apply(d, RecoverWrites(g, d))
  }

  /** Recovery read block by block: home blocks come from their slot, the count becomes zero. */
  lemma RecoverAt(g: Geometry, d: Image)
    requires DiskOk(g, d)
    ensures DiskOk(g, Recover(g, d)) && Count(Recover(g, d)[g.start]) == 0
    ensures var homes := DecodeHead(d[g.start]);
      && (forall i :: 0 <= i < |homes| ==> Recover(g, d)[homes[i]] == d[g.Slot(i)])
      && (forall b :: 0 <= b < |d| && b != g.start && b !in homes ==> Recover(g, d)[b] == d[b])
      && Recover(g, d)[g.start] == EncodeHead(d[g.start], [])
  {
    var ws := RecoverWrites(g, d);
    var homes := DecodeHead(d[g.start]);
    ApplyAt(d, ws);
    assert ws[|homes|].at == g.start;
    forall i | 0 <= i < |homes| ensures Recover(g, d)[homes[i]] == d[g.Slot(i)] {
      assert ws[i].at == homes[i];
    }
    HeadRoundTrip(d[g.start], []);
  }

  /** Recovering from a clear header changes no home block. */
  lemma RecoverClear(g: Geometry, d: Image)
    requires g.Fits(d) && Count(d[g.start]) == 0
    ensures DiskOk(g, d) && SameHomes(g, Recover(g, d), d)
  {
    assert DecodeHead(d[g.start]) == [];
    RecoverAt(g, d);
  }

  /** The disk when recovery is cut off after its first k writes. */
  ghost function CrashedRecovery(g: Geometry, d: Image, k: nat): (r: Image)
    requires DiskOk(g, d)
    ensures |r| == |d|
  {
    var ws := RecoverWrites(g, d);
    Apply(d, if k <= |ws| then ws[..k] else ws)
  }

  /** Recovery depends only on the log region and on home blocks the header does not name. */
  lemma RecoverDependsOn(g: Geometry, d: Image, d': Image)
    requires DiskOk(g, d) && |d'| == |d|
    requires forall b :: g.start <= b < |d| ==> d'[b] == d[b]
    requires forall b :: 0 <= b < g.start && b !in DecodeHead(d[g.start]) ==> d'[b] == d[b]
    ensures DiskOk(g, d') && Recover(g, d') == Recover(g, d)
  {
    assert d'[g.start] == d[g.start];
    var homes := DecodeHead(d[g.start]);
    RecoverAt(g, d);
    RecoverAt(g, d');
    forall b | 0 <= b < |d| ensures Recover(g, d')[b] == Recover(g, d)[b] {
      if i :| 0 <= i < |homes| && homes[i] == b {
        assert d'[g.Slot(i)] == d[g.Slot(i)];
      }
    }
  }

  lemma RecoverTwice(g: Geometry, d: Image)
    requires DiskOk(g, d)
    ensures DiskOk(g, Recover(g, d)) && Recover(g, Recover(g, d)) == Recover(g, d)
  {
    RecoverAt(g, d);
    RecoverAt(g, Recover(g, d));
    HeadRoundTrip(d[g.start], []);
  }

  /** Recovering again after an interrupted recovery gives what an uninterrupted one gives. */
  lemma RecoveryRestarts(g: Geometry, d: Image, k: nat)
    requires DiskOk(g, d)
    ensures DiskOk(g, CrashedRecovery(g, d, k))
    ensures Recover(g, CrashedRecovery(g, d, k)) == Recover(g, d)
  {
    var ws := RecoverWrites(g, d);
    if k >= |ws| {
      assert k == |ws| ==> ws[..k] == ws;
      RecoverTwice(g, d);
    } else {
      var homes := DecodeHead(d[g.start]);
      assert forall i :: 0 <= i < k ==> ws[..k][i].at == homes[i];
      ApplyAt(d, ws[..k]);
      RecoverDependsOn(g, d, CrashedRecovery(g, d, k));
    }
  }

  /** Reboots that each die inside recovery, after ks[0], ks[1], ... writes. */
  ghost function CrashedRecoveries(g: Geometry, d: Image, ks: seq<nat>): (r: Image)
    requires DiskOk(g, d)
    ensures DiskOk(g, r) && |r| == |d|
    decreases ks
  {
    if ks == [] then d
    else
      RecoveryRestarts(g, d, ks[0]);
      CrashedRecoveries(g, CrashedRecovery(g, d, ks[0]), ks[1..])
  }

  lemma {:induction false} RecoverySurvivesCrashes(g: Geometry, d: Image, ks: seq<nat>)
    requires DiskOk(g, d)
    ensures Recover(g, CrashedRecoveries(g, d, ks)) == Recover(g, d)
    decreases ks
  {
    if ks != [] {
      RecoveryRestarts(g, d, ks[0]);
      RecoverySurvivesCrashes(g, CrashedRecovery(g, d, ks[0]), ks[1..]);
    }
  }

  // ---------------------------------------------------------------- commit

  /** A transaction: home blocks with their new contents. */
  ghost function Homes(txn: seq<Write>): (r: seq<nat>)
    ensures |r| == |txn|
  {
    seq(|txn|, i requires 0 <= i < |txn| => txn[i].at)
  }

  ghost predicate TxnOk(g: Geometry, txn: seq<Write>) {
    && |txn| <= LOGSIZE
    && |txn| < g.size
    && (forall i :: 0 <= i < |txn| ==> txn[i].at < g.start)
    && DistinctTargets(txn)
  }

  ghost function HomeWords(g: Geometry, d: Image, txn: seq<Write>): (r: seq<Word>)
    requires g.Fits(d) && TxnOk(g, txn)
    ensures |r| == |txn| && HomesOk(g, r)
    ensures forall i :: 0 <= i < |txn| ==> r[i] == txn[i].at
  {
    seq(|txn|, i requires 0 <= i < |txn| => txn[i].at as Word)
  }

  /** `write_log`: fill the slots. */
  ghost function LogWrites(g: Geometry, txn: seq<Write>): (ws: seq<Write>)
    ensures |ws| == |txn|
    ensures DistinctTargets(ws)
  {
    seq(|txn|, i requires 0 <= i < |txn| => Write(g.Slot(i), txn[i].data))
  }

  /** `commit` with a non-empty log: slots, header, homes, cleared header. */
  ghost function CommitWrites(g: Geometry, d: Image, txn: seq<Write>): (ws: seq<Write>)
    requires g.Fits(d) && TxnOk(g, txn)
    ensures |ws| == 2 * |txn| + 2
    ensures InBounds(d, ws)
  {
    var head := EncodeHead(d[g.start], HomeWords(g, d, txn));
    LogWrites(g, txn) + [Write(g.start, head)] + txn + [Write(g.start, EncodeHead(head, []))]
  }

  ghost predicate SameHomes(g: Geometry, a: Image, b: Image) {
    |a| == |b| >= g.start && forall h :: 0 <= h < g.start ==> a[h] == b[h]
  }

  /** After the first k slot writes, everything outside the slots is as before. */
  lemma SlotsFilled(g: Geometry, d: Image, txn: seq<Write>, k: nat)
    requires g.Fits(d) && TxnOk(g, txn) && k <= |txn|
    ensures InBounds(d, LogWrites(g, txn)[..k])
    ensures var d' := Apply(d, LogWrites(g, txn)[..k]);
      && (forall i :: 0 <= i < k ==> d'[g.Slot(i)] == txn[i].data)
      && (forall b :: 0 <= b <= g.start ==> d'[b] == d[b])
  {
    var ws := LogWrites(g, txn)[..k];
    ApplyAt(d, ws);
    forall i | 0 <= i < k ensures Apply(d, ws)[g.Slot(i)] == txn[i].data {
      assert ws[i] == Write(g.Slot(i), txn[i].data);
    }
  }

  lemma SlotPrefix(g: Geometry, d: Image, txn: seq<Write>, k: nat)
    requires g.Fits(d) && TxnOk(g, txn) && k <= |txn|
    ensures CommitWrites(g, d, txn)[..k] == LogWrites(g, txn)[..k]
  {
  }

  /** While the slots are being filled, the header still names nothing. */
  lemma CrashBeforeHeader(g: Geometry, d: Image, txn: seq<Write>, k: nat)
    requires g.Fits(d) && TxnOk(g, txn) && Count(d[g.start]) == 0
    requires k <= |txn|
    ensures var d' := Apply(d, CommitWrites(g, d, txn)[..k]);
      DiskOk(g, d') && SameHomes(g, Recover(g, d'), d)
  {
    SlotPrefix(g, d, txn, k);
    SlotsFilled(g, d, txn, k);
    RecoverClear(g, Apply(d, LogWrites(g, txn)[..k]));
  }

  /** The disk once the header has landed, and after j of the home blocks have been written. */
  ghost function AfterHeader(g: Geometry, d: Image, txn: seq<Write>, j: nat): (r: Image)
    requires g.Fits(d) && TxnOk(g, txn) && j <= |txn|
  {
    var head := EncodeHead(d[g.start], HomeWords(g, d, txn));
    Apply(Apply(Apply(d, LogWrites(g, txn)), [Write(g.start, head)]), txn[..j])
  }

  lemma AfterHeaderAt(g: Geometry, d: Image, txn: seq<Write>, j: nat)
    requires g.Fits(d) && TxnOk(g, txn) && j <= |txn|
    ensures var r := AfterHeader(g, d, txn, j);
      && |r| == |d|
      && (forall i :: 0 <= i < |txn| ==> r[g.Slot(i)] == txn[i].data)
      && r[g.start] == EncodeHead(d[g.start], HomeWords(g, d, txn))
      && (forall i :: 0 <= i < j ==> r[txn[i].at] == txn[i].data)
      && (forall h :: 0 <= h < g.start && h !in Homes(txn)[..j] ==> r[h] == d[h])
  {
    var lw := LogWrites(g, txn);
    assert lw[..|txn|] == lw;
    SlotsFilled(g, d, txn, |txn|);
    var hw := Write(g.start, EncodeHead(d[g.start], HomeWords(g, d, txn)));
    var d1 := Apply(d, lw);
    ApplyOne(d1, hw);
    InstalledAt(g, d1[g.start := hw.data], txn, j);
  }

  lemma InstalledAt(g: Geometry, d: Image, txn: seq<Write>, j: nat)
    requires g.Fits(d) && TxnOk(g, txn) && j <= |txn|
    ensures var r := Apply(d, txn[..j]);
      && |r| == |d|
      && (forall i :: 0 <= i < j ==> r[txn[i].at] == txn[i].data)
      && (forall b :: 0 <= b < |d| && b !in Homes(txn)[..j] ==> r[b] == d[b])
  {
    ApplyAt(d, txn[..j]);
    assert forall i :: 0 <= i < j ==> txn[..j][i] == txn[i];
    assert forall i :: 0 <= i < j ==> Homes(txn)[..j][i] == txn[i].at;
  }

  lemma CrashAfterHeader(g: Geometry, d: Image, txn: seq<Write>, j: nat)
    requires g.Fits(d) && TxnOk(g, txn) && j <= |txn|
    ensures var d' := AfterHeader(g, d, txn, j);
      DiskOk(g, d') && SameHomes(g, Recover(g, d'), Apply(d, txn))
  {
    var d' := AfterHeader(g, d, txn, j);
    AfterHeaderAt(g, d, txn, j);
    var homes := HomeWords(g, d, txn);
    HeadRoundTrip(d[g.start], homes);
    RecoverAt(g, d');
    ApplyAt(d, txn);
    forall h | 0 <= h < g.start ensures Recover(g, d')[h] == Apply(d, txn)[h] {
      if i :| 0 <= i < |txn| && txn[i].at == h {
        assert homes[i] == h;
      } else {
        assert h !in homes;
        assert h !in Homes(txn)[..j];
      }
    }
  }

  /** The first |txn| + 1 + j writes of commit lead to AfterHeader(j). */
  lemma CommitPrefix(g: Geometry, d: Image, txn: seq<Write>, j: nat)
    requires g.Fits(d) && TxnOk(g, txn) && j <= |txn|
    ensures Apply(d, CommitWrites(g, d, txn)[..|txn| + 1 + j]) == AfterHeader(g, d, txn, j)
  {
    var lw := LogWrites(g, txn);
    var hw := [Write(g.start, EncodeHead(d[g.start], HomeWords(g, d, txn)))];
    assert CommitWrites(g, d, txn)[..|txn| + 1 + j] == lw + hw + txn[..j];
    ApplyConcat(d, lw, hw);
    ApplyConcat(d, lw + hw, txn[..j]);
  }

  lemma AfterHeaderSize(g: Geometry, d: Image, txn: seq<Write>, j: nat)
    requires g.Fits(d) && TxnOk(g, txn) && j <= |txn|
    ensures |AfterHeader(g, d, txn, j)| == |d|
  {
  }

  /** With all homes written, they read as after the bare transaction. */
  lemma InstalledHomes(g: Geometry, d: Image, txn: seq<Write>)
    requires g.Fits(d) && TxnOk(g, txn)
    ensures SameHomes(g, AfterHeader(g, d, txn, |txn|), Apply(d, txn))
  {
    var n := |txn|;
    AfterHeaderAt(g, d, txn, n);
    InstalledAt(g, d, txn, n);
    assert txn[..n] == txn && Homes(txn)[..n] == Homes(txn);
    forall h | 0 <= h < g.start ensures AfterHeader(g, d, txn, n)[h] == Apply(d, txn)[h] {
      if i :| 0 <= i < n && Homes(txn)[i] == h {
        assert txn[i].at == h;
      }
    }
  }

  /** All 2n + 2 writes: the transaction is installed and the header is clear again. */
  lemma CommitComplete(g: Geometry, d: Image, txn: seq<Write>)
    requires g.Fits(d) && TxnOk(g, txn)
    ensures var d' := Apply(d, CommitWrites(g, d, txn));
      DiskOk(g, d') && Count(d'[g.start]) == 0 && SameHomes(g, d', Apply(d, txn))
  {
    var n := |txn|;
    var ws := CommitWrites(g, d, txn);
    var homes := HomeWords(g, d, txn);
    CommitPrefix(g, d, txn, n);
    ApplyNext(d, ws, 2 * n + 1);
    assert ws[..2 * n + 2] == ws;
    InstalledHomes(g, d, txn);
    HeadRoundTrip(EncodeHead(d[g.start], homes), []);
    AfterHeaderSize(g, d, txn, n);
  }

  /** Whatever prefix of the commit reached the disk, one recovery decides by the header write. */
  lemma CrashThenRecover(g: Geometry, d: Image, txn: seq<Write>, k: nat)
    requires g.Fits(d) && TxnOk(g, txn) && Count(d[g.start]) == 0
    requires k <= |CommitWrites(g, d, txn)|
    ensures var d' := Apply(d, CommitWrites(g, d, txn)[..k]);
      DiskOk(g, d') && SameHomes(g, Recover(g, d'), if k > |txn| then Apply(d, txn) else d)
  {
    var n := |txn|;
    var ws := CommitWrites(g, d, txn);
    if k <= n {
      CrashBeforeHeader(g, d, txn, k);
    } else if k <= 2 * n + 1 {
      CommitPrefix(g, d, txn, k - n - 1);
      CrashAfterHeader(g, d, txn, k - n - 1);
    } else {
      assert ws[..k] == ws;
      CommitComplete(g, d, txn);
      RecoverClear(g, Apply(d, ws));
    }
  }

  /**
    Crash atomicity. Commit is cut off after any k of its writes; the machine then reboots any number
    of times into a recovery that is itself cut off, and finally recovers. The home blocks are all new
    if the header write (number n + 1) had landed and all old otherwise, and the header is clear.
   */
  lemma CrashAtomicity(g: Geometry, d: Image, txn: seq<Write>, k: nat, ks: seq<nat>)
    requires g.Fits(d) && TxnOk(g, txn) && Count(d[g.start]) == 0
    requires k <= |CommitWrites(g, d, txn)|
    ensures DiskOk(g, Apply(d, CommitWrites(g, d, txn)[..k]))
    ensures var r := Recover(g, CrashedRecoveries(g, Apply(d, CommitWrites(g, d, txn)[..k]), ks));
      && Quiet(g, r)
      && SameHomes(g, r, if k > |txn| then Apply(d, txn) else d)
  {
    CrashThenRecover(g, d, txn, k);
    var d' := Apply(d, CommitWrites(g, d, txn)[..k]);
    RecoverySurvivesCrashes(g, d', ks);
    RecoverAt(g, d');
  }

  // ---------------------------------------------------------------- whole histories

  /** One transaction of a machine's life: it commits, or the machine crashes inside the commit. */
  datatype Event =
    | Committed(txn: seq<Write>)
    | Crashed(txn: seq<Write>, after: nat, reboots: seq<nat>)

  ghost predicate EventOk(g: Geometry, e: Event) {
    TxnOk(g, e.txn) && (e.Crashed? ==> e.after <= 2 * |e.txn| + 2)
  }

  ghost predicate HistoryOk(g: Geometry, evs: seq<Event>) {
    forall i :: 0 <= i < |evs| ==> EventOk(g, evs[i])
  }

  /** Between events the disk fits the geometry and its header is clear. */
  ghost predicate Quiet(g: Geometry, d: Image) {
    g.Fits(d) && Count(d[g.start]) == 0
  }

  ghost function LiveEvent(g: Geometry, d: Image, e: Event): (r: Image)
    requires Quiet(g, d) && EventOk(g, e)
    ensures Quiet(g, r)
  {
    match e
    case Committed(txn) =>
      CommitComplete(g, d, txn);
      Apply(d, CommitWrites(g, d, txn))
    case Crashed(txn, k, reboots) =>
      CrashAtomicity(g, d, txn, k, reboots);
      var cut := Apply(d, CommitWrites(g, d, txn)[..k]);
      Recover(g, CrashedRecoveries(g, cut, reboots))
  }

  ghost function Live(g: Geometry, d: Image, evs: seq<Event>): (r: Image)
    requires Quiet(g, d) && HistoryOk(g, evs)
    ensures Quiet(g, r)
    decreases |evs|
  {
    if evs == [] then d
    else LiveEvent(g, Live(g, d, evs[..|evs| - 1]), evs[|evs| - 1])
  }

  /** A transaction took effect exactly when its header write landed. */
  predicate Durable(e: Event) {
    e.Committed? || e.after > |e.txn|
  }

  /** The reference: a disk without a log, on which durable transactions are applied whole. */
  ghost function Ideal(g: Geometry, d: Image, evs: seq<Event>): (r: Image)
    requires g.Fits(d) && HistoryOk(g, evs)
    ensures |r| == |d|
    decreases |evs|
  {
    if evs == [] then d
    else
      var before := Ideal(g, d, evs[..|evs| - 1]);
      var e := evs[|evs| - 1];
      if Durable(e) then Apply(before, e.txn) else before
  }

  lemma ApplyHomesCongruent(g: Geometry, a: Image, b: Image, txn: seq<Write>)
    requires SameHomes(g, a, b) && TxnOk(g, txn)
    ensures InBounds(a, txn) && InBounds(b, txn) && SameHomes(g, Apply(a, txn), Apply(b, txn))
  {
    ApplyAt(a, txn);
    ApplyAt(b, txn);
    forall h | 0 <= h < g.start ensures Apply(a, txn)[h] == Apply(b, txn)[h] {
      if i :| 0 <= i < |txn| && txn[i].at == h {
      }
    }
  }

  /** Over any history of commits, crashes and interrupted recoveries, the logged disk is the ideal disk. */
  lemma {:induction false} HistoryIsAtomic(g: Geometry, d: Image, evs: seq<Event>)
    requires Quiet(g, d) && HistoryOk(g, evs)
    ensures SameHomes(g, Live(g, d, evs), Ideal(g, d, evs))
    decreases |evs|
  {
    if evs != [] {
      var m := |evs| - 1;
      var before := Live(g, d, evs[..m]);
      HistoryIsAtomic(g, d, evs[..m]);
      var e := evs[m];
      match e {
        case Committed(txn) =>
          CommitComplete(g, before, txn);
        case Crashed(txn, k, reboots) =>
          CrashAtomicity(g, before, txn, k, reboots);
      }
      ApplyHomesCongruent(g, before, Ideal(g, d, evs[..m]), e.txn);
    }
  }
}
