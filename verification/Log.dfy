/**
  The procedures of xv6/log.c that write the disk, step by step: `write_log`, `write_head`,
  `install_trans`, `commit`, `read_head`, `recover_from_log`.

  Each is proved to make exactly the one-block writes, in exactly the order, that module RedoLog
  assigns to it, so the crash theorems there speak about every point of these procedures.
  Blocks are read through the buffer cache: a cached copy wins over the disk.
 */
module Log {
  import opened Basics
  import opened RedoLog

  /** Cached copies agree with the disk, except for logged blocks, which are pinned in the cache. */
  ghost predicate Agree(homes: seq<Word>, cache: map<nat, Block>, disk: Image) {
    && (forall b :: b in cache ==> b < |disk| && (b !in homes ==> cache[b] == disk[b]))
    && (forall i :: 0 <= i < |homes| ==> homes[i] in cache)
  }

  /** The part of Agree that remains while homes are being installed one after the other. */
  ghost predicate Settled(rest: seq<Word>, cache: map<nat, Block>, disk: Image) {
    forall b :: b in cache ==> b < |disk| && (b !in rest ==> cache[b] == disk[b])
  }

  ghost function Transaction(g: Geometry, homes: seq<Word>, cache: map<nat, Block>): (txn: seq<Write>)
    requires HomesOk(g, homes)
    requires forall i :: 0 <= i < |homes| ==> homes[i] in cache
    ensures |txn| == |homes| && TxnOk(g, txn)
    ensures forall i :: 0 <= i < |homes| ==> txn[i] == Write(homes[i], cache[homes[i]])
  {
    seq(|homes|, i requires 0 <= i < |homes| => Write(homes[i], cache[homes[i]]))
  }

  /** `write_head` as a write. */
  ghost function HeadWrite(g: Geometry, d: Image, homes: seq<Word>): Write
    requires g.Fits(d) && |homes| <= LOGSIZE
  {
    Write(g.start, EncodeHead(d[g.start], homes))
  }

  class LogDevice {
    const geom: Geometry
    // The in-memory header `log.lh`.
    var n: nat
    const block: array<Word>
    // The disk and the blocks held valid in the buffer cache.
    var disk: Image
    var cache: map<nat, Block>
    // Every one-block write made so far.
    ghost var trace: seq<Write>

    ghost predicate Valid()
      reads this, block
    {
      && block.Length == LOGSIZE
      && geom.Fits(disk)
      && n <= LOGSIZE
      && HomesOk(geom, block[..n])
      && (forall b :: b in cache ==> b < |disk|)
    }

    /** What a process reading block b sees. */
    ghost function View(b: nat): Block
      requires b < |disk|
      reads this
    {
      if b in cache then cache[b] else disk[b]
    }

    ghost predicate Coherent()
      requires Valid()
      reads this, block
    {
      Agree(block[..n], cache, disk)
    }

    /** The transaction accumulated in the cache: logged block numbers with their cached contents. */
    ghost function Pending(): (txn: seq<Write>)
      requires Valid() && Coherent()
      reads this, block
      ensures |txn| == n && TxnOk(geom, txn)
    {
      Transaction(geom, block[..n], cache)
    }

    constructor (g: Geometry, image: Image)
      requires g.Fits(image)
      ensures Valid() && Coherent() && n == 0 && fresh(block)
      ensures geom == g && disk == image && cache == map[] && trace == []
    {
      geom := g;
      n := 0;
      block := new Word[LOGSIZE];
      disk := image;
      cache := map[];
      trace := [];
    }

    /** `bread` */
    method Bread(b: nat) returns (data: Block)
      requires b < |disk|
      modifies this`cache
      ensures data == old(View(b))
      ensures cache == old(cache)[b := data]
    {
      data := if b in cache then cache[b] else disk[b];
      cache := cache[b := data];
    }

    /** `bwrite` of a buffer holding block b */
    method Bwrite(b: nat, data: Block)
      requires b < |disk|
      modifies this`cache, this`disk, this`trace
      ensures disk == old(disk)[b := data]
      ensures cache == old(cache)[b := data]
      ensures trace == old(trace) + [Write(b, data)]
    {
      disk := disk[b := data];
      cache := cache[b := data];
      trace := trace + [Write(b, data)];
    }

    /** `bread` source and destination, `memmove`, `bwrite` the destination. */
    method CopyBlock(from: nat, to: nat)
      requires from < |disk| && to < |disk| && from != to
      modifies this`cache, this`disk, this`trace
      ensures var data := old(View(from));
        && disk == old(disk)[to := data]
        && cache == old(cache)[from := data][to := data]
        && trace == old(trace) + [Write(to, data)]
    {
      var src := Bread(from);
      var dst := Bread(to);
      Bwrite(to, src);
    }

    /** The disk and the trace moved together by the writes ws. */
    twostate predicate Wrote(ws: seq<Write>)
      reads this
    {
      && InBounds(old(disk), ws)
      && trace == old(trace) + ws
      && disk == Apply(old(disk), ws)
    }

    /** `write_log`: copy modified blocks from cache to log. */
    method WriteLog()
      requires Valid() && Coherent()
      modifies this`cache, this`disk, this`trace
      ensures Valid() && Coherent()
      ensures Pending() == old(Pending())
      ensures Wrote(LogWrites(geom, old(Pending())))
    {
      ghost var homes, d0, c0, t0 := block[..n], disk, cache, trace;
      ghost var txn := Transaction(geom, homes, c0);
      ghost var ws := LogWrites(geom, txn);
      var tail := 0;
      ghost var done: seq<Write> := [];
      while tail < n
        invariant 0 <= tail <= n
        invariant |disk| == |d0| && Agree(homes, cache, disk)
        invariant forall i :: 0 <= i < n ==> cache[homes[i]] == c0[homes[i]]
        invariant done == ws[..tail] && trace == t0 + done && disk == Apply(d0, done)
      {
        assert block[tail] == homes[tail];
        CopyToSlot(homes, cache, disk, tail, geom.Slot(tail));
        ApplyNext(d0, ws, tail);
        Associate(t0, done, [ws[tail]]);
        CopyBlock(block[tail], geom.Slot(tail));
        done := done + [ws[tail]];
        tail := tail + 1;
      }
      assert done == ws;
    }

    /** `write_head`: the in-memory header over the header block. */
    method WriteHead()
      requires Valid()
      requires geom.start in cache ==> cache[geom.start] == disk[geom.start]
      modifies this`cache, this`disk, this`trace
      ensures Valid()
      ensures Wrote([HeadWrite(geom, old(disk), block[..n])])
      ensures cache == old(cache)[geom.start := disk[geom.start]]
    {
      var hb := Bread(geom.start);
      ghost var hb0 := hb;
      hb := hb[0 := n];
      var i := 0;
      while i < n
        invariant 0 <= i <= n
        invariant |hb| == BLOCK_WORDS
        invariant hb == [n as Word] + block[..i] + hb0[i + 1..]
      {
        hb := hb[i + 1 := block[i]];
        i := i + 1;
      }
      assert hb == EncodeHead(hb0, block[..n]);
      Bwrite(geom.start, hb);
      ApplyOne(old(disk), Write(geom.start, hb));
    }

    /** `install_trans`: copy the slots to their home blocks. */
    method InstallTrans()
      requires Valid()
      requires forall b :: b in cache && b !in block[..n] ==> cache[b] == disk[b]
      modifies this`cache, this`disk, this`trace
      ensures Valid()
      ensures Wrote(InstallWrites(geom, old(disk), block[..n]))
      ensures forall b :: 0 <= b < |disk| && b !in block[..n] ==> disk[b] == old(disk[b])
      ensures forall b :: b in cache ==> cache[b] == disk[b]
    {
      ghost var homes, d0, t0 := block[..n], disk, trace;
      ghost var ws := InstallWrites(geom, d0, homes);
      var tail := 0;
      ghost var done: seq<Write> := [];
      while tail < n
        invariant 0 <= tail <= n
        invariant |disk| == |d0|
        invariant done == ws[..tail] && trace == t0 + done && disk == Apply(d0, done)
        invariant Settled(homes[tail..], cache, disk)
        invariant forall b :: 0 <= b < |disk| && b !in homes ==> disk[b] == d0[b]
      {
        assert block[tail] == homes[tail];
        CopyToHome(homes, cache, disk, tail, geom.Slot(tail));
        ApplyNext(d0, ws, tail);
        Associate(t0, done, [ws[tail]]);
        CopyBlock(geom.Slot(tail), block[tail]);
        done := done + [ws[tail]];
        tail := tail + 1;
      }
      assert done == ws;
    }

    /** The first half of `commit`: fill the slots, then write the header naming them. */
    method LogTransaction()
      requires Valid() && Coherent()
      modifies this`cache, this`disk, this`trace
      ensures Valid() && Coherent()
      ensures Pending() == old(Pending())
      ensures Wrote(LogWrites(geom, old(Pending())) + [HeadWrite(geom, old(disk), block[..n])])
      ensures disk[geom.start] == HeadWrite(geom, old(disk), block[..n]).data
      ensures forall i :: 0 <= i < n ==> disk[geom.Slot(i)] == Pending()[i].data
    {
      ghost var d0, t0, txn := disk, trace, Pending();
      ghost var lw, hw := LogWrites(geom, txn), HeadWrite(geom, d0, block[..n]);
      WriteLog();
      WriteHead();
      LogHalf(geom, d0, txn, hw);
      Associate(t0, lw, [hw]);
    }

    /** The second half of `commit`: install, forget the transaction, clear the header. */
    method InstallAndClear()
      requires Valid() && Coherent()
      requires forall i :: 0 <= i < n ==> disk[geom.Slot(i)] == Pending()[i].data
      modifies this
      ensures Valid() && Coherent() && n == 0
      ensures Wrote(old(Pending()) + [HeadWrite(geom, old(disk), [])])
      ensures forall b :: b in cache ==> cache[b] == disk[b]
    {
      ghost var d0, txn, cw := disk, Pending(), HeadWrite(geom, disk, []);
      InstallsTxn(geom, d0, txn, block[..n]);
      InstallTrans();
      ghost var d1 := disk;
      n := 0;
      assert block[..0] == [];
      WriteHead();
      ApplyOne(d1, cw);
      ApplyConcat(d0, txn, [cw]);
      Associate(old(trace), txn, [cw]);
    }

    /**
      `commit`: the pending transaction reaches the disk by the write sequence CommitWrites, and
      afterwards nothing is pending and every cached block agrees with the disk.
     */
    method Commit()
      requires Valid() && Coherent()
      modifies this
      ensures Valid() && Coherent() && n == 0
      ensures old(n) == 0 ==> Wrote([])
      ensures old(n) > 0 ==> Wrote(CommitWrites(geom, old(disk), old(Pending())))
      ensures forall b :: b in cache ==> cache[b] == disk[b]
    {
      if n > 0 {
        ghost var d0, t0, txn, homes := disk, trace, Pending(), block[..n];
        LogTransaction();
        ghost var d1 := disk;
        InstallAndClear();
        CommitInTwoHalves(geom, d0, d1, txn, homes);
        Associate(t0, LogWrites(geom, txn) + [HeadWrite(geom, d0, homes)], txn + [HeadWrite(geom, d1, [])]);
      }
    }

    /** `read_head` */
    method ReadHead()
      requires Valid() && Coherent() && n == 0
      requires DiskOk(geom, disk)
      modifies this, block
      ensures Valid()
      ensures disk == old(disk) && trace == old(trace)
      ensures forall b :: b in cache ==> cache[b] == disk[b]
      ensures n == Count(disk[geom.start]) && block[..n] == DecodeHead(disk[geom.start])
    {
      var buf := Bread(geom.start);
      var count := buf[0];
      var i := 0;
      while i < count
        modifies block
        invariant 0 <= i <= count
        invariant block[..i] == buf[1..1 + i]
      {
        block[i] := buf[1 + i];
        i := i + 1;
      }
      n := count;
    }

    /** `recover_from_log` performs exactly RedoLog's recovery, from a cache that holds nothing dirty. */
    method RecoverFromLog()
      requires Valid() && Coherent() && n == 0
      requires DiskOk(geom, disk)
      modifies this, block
      ensures Valid() && Coherent() && n == 0
      ensures Wrote(RecoverWrites(geom, old(disk)))
      ensures disk == Recover(geom, old(disk))
      ensures forall b :: b in cache ==> cache[b] == disk[b]
    {
      ReadHead();
      ghost var iw := InstallWrites(geom, disk, block[..n]);
      InstallTrans();
      ghost var d1 := disk;
      n := 0;
      assert block[..0] == [];
      WriteHead();
      ghost var cw := [Write(geom.start, EncodeHead(old(disk)[geom.start], []))];
      ApplyOne(d1, cw[0]);
      ApplyConcat(old(disk), iw, cw);
      Associate(old(trace), iw, cw);
    }
  }

  /** Filling a slot from the k-th logged block disturbs neither agreement nor the transaction. */
  lemma CopyToSlot(homes: seq<Word>, cache: map<nat, Block>, disk: Image, k: nat, slot: nat)
    requires Agree(homes, cache, disk) && k < |homes| && slot < |disk| && slot !in homes
    ensures var data := cache[homes[k]];
      var cache' := cache[homes[k] := data][slot := data];
      && Agree(homes, cache', disk[slot := data])
      && (forall i :: 0 <= i < |homes| ==> cache'[homes[i]] == cache[homes[i]])
  {
  }

  /** Installing the k-th home from its slot settles that home and keeps the others as they were. */
  lemma CopyToHome(homes: seq<Word>, cache: map<nat, Block>, disk: Image, k: nat, slot: nat)
    requires k < |homes| && slot < |disk| && homes[k] < |disk| && slot !in homes
    requires Settled(homes[k..], cache, disk)
    ensures var data := if slot in cache then cache[slot] else disk[slot];
      && data == disk[slot]
      && Settled(homes[k + 1..], cache[slot := data][homes[k] := data], disk[homes[k] := data])
  {
    assert homes[k..] == [homes[k]] + homes[k + 1..];
  }

  lemma Associate<T>(a: seq<T>, b: seq<T>, c: seq<T>)
    ensures (a + b) + c == a + (b + c)
  {
  }

  /** Slots and header written: what the two stages leave on the disk. */
  lemma LogHalf(g: Geometry, d: Image, txn: seq<Write>, hw: Write)
    requires g.Fits(d) && TxnOk(g, txn) && hw.at == g.start
    ensures InBounds(d, LogWrites(g, txn)) && InBounds(d, LogWrites(g, txn) + [hw])
    ensures var d1 := Apply(d, LogWrites(g, txn));
      && d1[g.start] == d[g.start]
      && Apply(d1, [hw]) == Apply(d, LogWrites(g, txn) + [hw])
      && Apply(d1, [hw]) == d1[g.start := hw.data]
      && (forall i :: 0 <= i < |txn| ==> d1[g.Slot(i)] == txn[i].data)
  {
    var lw := LogWrites(g, txn);
    SlotsFilled(g, d, txn, |txn|);
    assert lw[..|txn|] == lw;
    ApplyOne(Apply(d, lw), hw);
    ApplyConcat(d, lw, [hw]);
  }

  lemma CommitInTwoHalves(g: Geometry, d0: Image, d1: Image, txn: seq<Write>, homes: seq<Word>)
    requires g.Fits(d0) && |d1| == |d0| && TxnOk(g, txn) && |homes| == |txn|
    requires forall i :: 0 <= i < |txn| ==> homes[i] == txn[i].at
    requires d1[g.start] == HeadWrite(g, d0, homes).data
    ensures var first := LogWrites(g, txn) + [HeadWrite(g, d0, homes)];
      var second := txn + [HeadWrite(g, d1, [])];
      && CommitWrites(g, d0, txn) == first + second
      && InBounds(d0, first) && InBounds(d0, second)
      && Apply(Apply(d0, first), second) == Apply(d0, CommitWrites(g, d0, txn))
  {
    var first := LogWrites(g, txn) + [HeadWrite(g, d0, homes)];
    var second := txn + [HeadWrite(g, d1, [])];
    assert HomeWords(g, d0, txn) == homes;
    assert CommitWrites(g, d0, txn) == first + second;
    ApplyConcat(d0, first, second);
  }

  /** With the slots filled from txn, installing them writes txn. */
  lemma InstallsTxn(g: Geometry, d: Image, txn: seq<Write>, homes: seq<Word>)
    requires g.Fits(d) && TxnOk(g, txn) && HomesOk(g, homes) && |homes| == |txn|
    requires forall i :: 0 <= i < |txn| ==> d[g.Slot(i)] == txn[i].data && homes[i] == txn[i].at
    ensures InstallWrites(g, d, homes) == txn
  {
    forall i | 0 <= i < |txn| ensures InstallWrites(g, d, homes)[i] == txn[i] {}
  }
}
