/**
  How xv6/mkfs.c builds files in a new image: blocks are taken in order from `freeblock`, and every file
  grows at its end. Proved against the byte images of InodeSpec.

  Rounding up the root directory's size can leave a hole in it. Its blocks are then read from sector 0, and
  what is read is right because nothing is ever written there.
 */
module Mkfs {
  import opened Basics
  import opened InodeSpec
  import opened InodeFs

  /** The blocks below freeblock are in use. */
  ghost function UsedBelow(n: nat, free: nat): (r: seq<bool>)
    ensures |r| == n && forall b :: 0 <= b < n ==> r[b] == (b < free)
  {
    seq(n, b => b < free)
  }

  class ImageFile {
    var blocks: seq<Block>
    var inodes: seq<Inode>
    var freeblock: nat
    ghost var owner: Owners

    ghost function D(): Disk
      reads this
    {
      Disk(blocks, UsedBelow(|blocks|, freeblock), inodes)
    }

    ghost predicate Valid()
      reads this
    {
      && Wf(D(), owner) && 0 < freeblock <= |blocks| && blocks[0] == Zero()
      && (forall b :: freeblock <= b < |blocks| ==> blocks[b] == Zero())
    }

    /** The file has no hole and ends in its last mapped block. */
    ghost predicate Tight(i: nat)
      requires i < |inodes|
      reads this
    {
      MappedUpTo(D(), i, inodes[i].size)
    }

    /**
      freeblock++. The image was zeroed first, so the block is empty. A block past the end of the image is read next,
      which ends the program.
     */
    method TakeBlock() returns (r: Outcome<nat>)
      requires 0 < freeblock && forall b :: freeblock <= b < |blocks| ==> blocks[b] == Zero()
      modifies `freeblock
      ensures r == if old(freeblock) < |blocks| then Done(old(freeblock)) else Panic
      ensures r.Panic? ==> freeblock == old(freeblock)
      ensures r.Done? ==> freeblock == old(freeblock) + 1 && !old(D()).used[r.value]
      ensures r.Done? ==> D() == Allocated(old(D()), r.value)
    {
      if freeblock >= |blocks| {
        return Panic;
      }
      r := Done(freeblock);
      assert blocks[freeblock := Zero()] == blocks;
      ghost var u := UsedBelow(|blocks|, freeblock);
      freeblock := freeblock + 1;
      assert UsedBelow(|blocks|, freeblock) == u[freeblock - 1 := true];
    }

    /** The block of a file, taken when missing. */
    method MapBlock(i: nat, fbn: nat) returns (r: Outcome<nat>)
      requires Valid() && i < |inodes| && fbn < MAXFILE
      modifies this
      ensures Valid() && Mapped(old(D()), D()) && !r.Error? && |blocks| == |old(blocks)|
      ensures r.Done? ==> r.value == Addr(D(), i, fbn) && 0 < r.value < |blocks| && r.value < freeblock
      ensures r.Panic? <==> old(freeblock) + MapCost(old(D()), i, fbn) > |blocks|
      ensures r.Done? ==> freeblock == old(freeblock) + MapCost(old(D()), i, fbn) && MapsOnly(old(D()), D(), i, fbn)
    {
      ghost var d := D();
      if fbn < NDIRECT {
        r := MapDirect(i, fbn);
      } else {
        r := MapDirect(i, NDIRECT);
        if r.Done? {
          ghost var d1 := D();
          r := MapEntry(i, fbn - NDIRECT);
          MappedThen(d, d1, D());
        }
      }
    }

    method MapDirect(i: nat, k: nat) returns (r: Outcome<nat>)
      requires Valid() && i < |inodes| && k <= NDIRECT
      modifies this
      ensures Valid() && Mapped(old(D()), D()) && !r.Error? && |blocks| == |old(blocks)|
      ensures r.Done? ==> r.value == inodes[i].addrs[k] && 0 < r.value < |blocks| && r.value < freeblock
      ensures r.Panic? <==> old(inodes)[i].addrs[k] == 0 && old(freeblock) >= |blocks|
      ensures r.Done? ==> freeblock == old(freeblock) + (if old(inodes)[i].addrs[k] == 0 then 1 else 0)
      ensures SameMapBut(old(D()), D(), i, if k < NDIRECT then k else INDIRECT)
    {
      ghost var slot := if k < NDIRECT then k else INDIRECT;
      ghost var d := D();
      if inodes[i].addrs[k] != 0 {
        Below(d, owner, i, slot);
        return Done(inodes[i].addrs[k]);
      }
      r := TakeBlock();
      if r.Done? {
        MappedInInode(d, owner, r.value, i, k);
        inodes := inodes[i := inodes[i].(addrs := inodes[i].addrs[k := r.value])];
        owner := owner[r.value := Slot(i, slot)];
        assert D() == SetAddr(Allocated(d, r.value), i, k, r.value);
      }
    }

    method MapEntry(i: nat, e: nat) returns (r: Outcome<nat>)
      requires Valid() && i < |inodes| && e < NINDIRECT && 0 < inodes[i].addrs[NDIRECT] < freeblock
      modifies this
      ensures Valid() && Mapped(old(D()), D()) && !r.Error? && |blocks| == |old(blocks)|
      ensures r.Done? ==> r.value == Addr(D(), i, NDIRECT + e) && 0 < r.value < |blocks| && r.value < freeblock
      ensures r.Panic? <==> old(Addr(D(), i, NDIRECT + e)) == 0 && old(freeblock) >= |blocks|
      ensures r.Done? ==> freeblock == old(freeblock) + (if old(Addr(D(), i, NDIRECT + e)) == 0 then 1 else 0)
      ensures SameMapBut(old(D()), D(), i, NDIRECT + e)
    {
      ghost var d := D();
      InUse(d, owner, i, INDIRECT);
      var ia := inodes[i].addrs[NDIRECT];
      var addr := GetWord(blocks[ia], e);
      if addr != 0 {
        Below(d, owner, i, NDIRECT + e);
        return Done(addr);
      }
      r := TakeBlock();
      if r.Done? {
        MappedInIndirect(d, owner, r.value, i, e);
        blocks := blocks[ia := SetWord(blocks[ia], e, r.value)];
        owner := owner[r.value := Slot(i, NDIRECT + e)];
        assert D() == SetEntry(Allocated(d, r.value), ia, e, r.value);
      }
    }

    /** One round of iappend: bytes that lie in one block. */
    method AppendBlock(i: nat, off: nat, bytes: seq<Byte>) returns (r: Outcome<()>)
      requires Valid() && i < |inodes| && off < MAXBYTES && off % BSIZE + |bytes| <= BSIZE
      modifies this
      ensures Valid() && |inodes| == old(|inodes|) && !r.Error? && |blocks| == |old(blocks)|
      ensures r.Done? ==> Put(old(D()), D(), i, off, bytes) && Extends(old(D()), D()) && Addr(D(), i, off / BSIZE) != 0
      ensures r.Panic? <==> old(freeblock) + MapCost(old(D()), i, off / BSIZE) > |blocks|
      ensures r.Done? ==> freeblock == old(freeblock) + MapCost(old(D()), i, off / BSIZE)
      ensures r.Done? ==> MapsOnly(old(D()), D(), i, off / BSIZE)
    {
      ghost var d0 := D();
      var x := MapBlock(i, off / BSIZE);
      if !x.Done? {
        return Panic;
      }
      ghost var d := D();
      WriteInImage(d, owner, i, off, bytes);
      DataMap(d, owner, i, off / BSIZE, WriteIn(d, x.value, off % BSIZE, bytes));
      blocks := blocks[x.value := Splice(blocks[x.value], off % BSIZE, bytes)];
      assert D() == WriteIn(d, x.value, off % BSIZE, bytes);
      return Done(());
    }

    /**
      Appends: the file's content is what it was, then the new bytes, and the image has lost exactly the blocks
      they need. Gives up exactly when the file would grow too large or the image has too few blocks left.
     */
    method Iappend(i: nat, xp: seq<Byte>) returns (r: Outcome<()>)
      requires Valid() && i < |inodes| && Tight(i)
      modifies this
      ensures Valid() && |inodes| == old(|inodes|) && !r.Error? && |blocks| == |old(blocks)|
      ensures r.Panic? <==> NoRoom(old(inodes)[i].size, |xp|, old(freeblock), |blocks|)
      ensures r.Done? ==> freeblock == old(freeblock) + Cost(old(inodes)[i].size, old(inodes)[i].size + |xp|)
      ensures r.Done? ==> Tight(i) && OthersMapped(old(D()), D(), i)
      ensures r.Done? ==> inodes[i].size == old(inodes)[i].size + |xp|
      ensures r.Done? ==> Content(D(), i) == old(Content(D(), i)) + xp && OthersSame(old(D()), D(), i)
      ensures r.Done? && old(ZeroTail(D(), i)) ==> ZeroTail(D(), i)
    {
      ghost var d0 := D();
      r := AppendBytes(i, xp);
      if r.Panic? {
        return;
      }
      ghost var d := D();
      var off := inodes[i].size + |xp|;
      SizeOnly(d, owner, i, off);
      inodes := inodes[i := inodes[i].(size := off)];
      SameAddrs(d, D());
      Appended(d0, d, D(), i, xp);
    }

    /** The copy loop of iappend. */
    method AppendBytes(i: nat, xp: seq<Byte>) returns (r: Outcome<()>)
      requires Valid() && i < |inodes| && Tight(i)
      modifies this
      ensures Valid() && |inodes| == old(|inodes|) && !r.Error? && |blocks| == |old(blocks)|
      ensures r.Panic? <==> NoRoom(old(inodes)[i].size, |xp|, old(freeblock), |blocks|)
      ensures r.Done? ==> AppendAt(old(D()), D(), i, old(inodes)[i].size, xp, old(freeblock), freeblock)
    {
      ghost var d0, free0 := D(), freeblock;
      var start := inodes[i].size;
      var off, done := start, 0;
      AppendStarts(d0, i, start, free0);
      while done < |xp|
        invariant 0 <= done <= |xp| && off == start + done <= MAXBYTES && Valid()
        invariant AppendAt(d0, D(), i, start, xp[..done], free0, freeblock)
      {
        var n1;
        r, n1 := AppendPart(d0, i, start, xp, off, done, free0);
        if !r.Done? {
          return;
        }
        off, done := off + n1, done + n1;
      }
      assert xp[..done] == xp;
      HadRoom(d0, D(), i, start, xp, free0, freeblock);
      return Done(());
    }

    /** One round: as many of the bytes left as the block at `off` has room for. */
    method AppendPart(ghost d0: Disk, i: nat, ghost start: nat, xp: seq<Byte>, off: nat, done: nat, ghost free0: nat)
      returns (r: Outcome<()>, n1: nat)
      requires Valid() && done < |xp| && off == start + done
      requires AppendAt(d0, D(), i, start, xp[..done], free0, freeblock)
      modifies this
      ensures Valid() && |inodes| == |d0.inodes| && !r.Error? && |blocks| == |d0.blocks|
      ensures r.Panic? ==> NoRoom(start, |xp|, free0, |blocks|)
      ensures r.Done? ==> 0 < n1 <= |xp| - done && AppendAt(d0, D(), i, start, xp[..done + n1], free0, freeblock)
    {
      n1 := Min(|xp| - done, BSIZE - off % BSIZE);
      if off / BSIZE >= MAXFILE {
        return Panic, n1;
      }
      r := AppendNext(d0, i, start, xp, off, done, done + n1, free0);
    }

    method AppendNext(ghost d0: Disk, i: nat, ghost start: nat, xp: seq<Byte>, off: nat, k: nat, k': nat,
                      ghost free0: nat)
      returns (r: Outcome<()>)
      requires Valid() && k < k' <= |xp| && off == start + k < MAXBYTES && off % BSIZE + (k' - k) <= BSIZE
      requires AppendAt(d0, D(), i, start, xp[..k], free0, freeblock)
      modifies this
      ensures Valid() && |inodes| == |d0.inodes| && !r.Error? && |blocks| == |d0.blocks|
      ensures r.Panic? ==> NoRoom(start, |xp|, free0, |blocks|)
      ensures r.Done? ==> AppendAt(d0, D(), i, start, xp[..k'], free0, freeblock)
    {
      ghost var d, free := D(), freeblock;
      CostMore(d, i, start, off, start + k', start + |xp|);
      r := AppendBlock(i, off, xp[k..k']);
      if r.Done? {
        AppendGrew(d0, d, D(), i, start, xp, k, k', free0, free, freeblock);
      }
    }

    /** Reads as the kernel does, holes included. */
    method Readi(i: nat, off: Word, n: Word) returns (r: Outcome<seq<Byte>>)
      requires Valid() && i < |inodes|
      ensures !r.Panic? && (r.Error? <==> off > inodes[i].size || off + n >= 0x1_0000_0000)
      ensures r.Done? ==> r.value == Content(D(), i)[off..Min(off + n, inodes[i].size)]
    {
      if off > inodes[i].size || (off + n) % 0x1_0000_0000 < off {
        return Error;
      }
      var n' := if off + n > inodes[i].size then inodes[i].size - off else n;
      ghost var im := Image(D(), i);
      var tot, at, dst := 0, off, [];
      while tot < n'
        invariant 0 <= tot <= n' && at == off + tot && dst == im[off..at]
      {
        var part := ReadPart(i, at, n' - tot);
        SliceMore(im, off, at, at + |part|);
        dst := dst + part;
        tot, at := tot + |part|, at + |part|;
      }
      SliceWithin(im, off, off + n', inodes[i].size);
      return Done(dst);
    }

    /** One round: as many of the n bytes left as the block at `at` has. */
    method ReadPart(i: nat, at: nat, n: nat) returns (part: seq<Byte>)
      requires Valid() && i < |inodes| && 0 < n && at + n <= MAXBYTES
      ensures 0 < |part| <= n && part == Image(D(), i)[at..at + |part|]
    {
      var data := Rblock(i, at / BSIZE);
      var m := Min(n, BSIZE - at % BSIZE);
      SectorBytes(D(), i, at, m);
      part := data[at % BSIZE..at % BSIZE + m];
    }

    /** The sector of a block of the file: sector 0, which is zero, when the block is missing. */
    method Rblock(i: nat, bn: nat) returns (data: Block)
      requires Valid() && i < |inodes| && bn < MAXFILE
      ensures Addr(D(), i, bn) < |blocks| && data == blocks[Addr(D(), i, bn)]
      ensures Addr(D(), i, bn) == 0 ==> data == Zero()
    {
      InRange(D(), owner, i, bn);
      if bn < NDIRECT {
        return blocks[inodes[i].addrs[bn]];
      }
      InRange(D(), owner, i, INDIRECT);
      Indirection(D(), i, bn);
      var ia := inodes[i].addrs[NDIRECT];
      var addr := GetWord(blocks[ia], bn - NDIRECT);
      return blocks[addr];
    }

    /**
      The root directory's size goes up to the next larger multiple of 512. Its content is filled up with zeros,
      and it gets a hole exactly when its last block was full.
     */
    method RoundUp(i: nat)
      requires Valid() && i < |inodes| && inodes[i].size < MAXBYTES && Tight(i) && ZeroTail(D(), i)
      modifies `inodes
      ensures Valid() && |inodes| == old(|inodes|) && OthersSame(old(D()), D(), i) && OthersMapped(old(D()), D(), i)
      ensures inodes[i].size == (old(inodes)[i].size / 512 + 1) * 512
      ensures Content(D(), i) == old(Content(D(), i)) + seq(inodes[i].size - old(inodes)[i].size, _ => 0)
      ensures Tight(i) <==> old(inodes)[i].size % 512 != 0
    {
      ghost var d := D();
      var off := (inodes[i].size / BSIZE + 1) * BSIZE;
      SizeOnly(d, owner, i, off);
      inodes := inodes[i := inodes[i].(size := off)];
      SameAddrs(d, D());
      RoundedMap(d, D(), i);
    }

    /** Copies one file onto the end of another, 512 bytes at a time. */
    method CopyContent(src: nat, dst: nat) returns (r: Outcome<()>)
      requires Valid() && src < |inodes| && dst < |inodes| && src != dst && Tight(dst)
      modifies this
      ensures Valid() && |inodes| == old(|inodes|) && !r.Error? && |blocks| == |old(blocks)|
      ensures r.Panic? <==> NoRoom(old(inodes)[dst].size, old(inodes)[src].size, old(freeblock), |blocks|)
      ensures r.Done? ==> Tight(dst) && OthersSame(old(D()), D(), dst) && OthersMapped(old(D()), D(), dst)
      ensures r.Done? ==> Content(D(), dst) == old(Content(D(), dst)) + old(Content(D(), src))
    {
      ghost var d0, from, free0 := D(), Content(D(), src), freeblock;
      var off := 0;
      CopyStarts(d0, dst, from, free0);
      while off < inodes[src].size
        invariant Valid() && |inodes| == |d0.inodes| && |blocks| == |d0.blocks| && Tight(dst)
        invariant Content(D(), src) == from && 0 <= off <= |from| == inodes[src].size
        invariant CopyAt(d0, D(), dst, from, off, free0, freeblock)
        decreases |from| - off
      {
        r, off := CopyPart(d0, src, dst, from, off, free0);
        if !r.Done? {
          return;
        }
      }
      assert from[..off] == from;
      return Done(());
    }

    /** One round: up to 512 bytes read and appended. */
    method CopyPart(ghost d0: Disk, src: nat, dst: nat, ghost from: seq<Byte>, off: nat, ghost free0: nat)
      returns (r: Outcome<()>, off': nat)
      requires Valid() && src < |inodes| == |d0.inodes| && dst < |inodes| && src != dst && Tight(dst)
      requires |blocks| == |d0.blocks|
      requires Content(D(), src) == from && off < |from| == inodes[src].size
      requires CopyAt(d0, D(), dst, from, off, free0, freeblock)
      modifies this
      ensures Valid() && |inodes| == |d0.inodes| && |blocks| == |d0.blocks| && !r.Error?
      ensures r.Panic? ==> NoRoom(d0.inodes[dst].size, |from|, free0, |blocks|)
      ensures r.Done? ==> Tight(dst) && Content(D(), src) == from && |from| == inodes[src].size && off < off' <= |from|
      ensures r.Done? ==> CopyAt(d0, D(), dst, from, off', free0, freeblock)
    {
      ghost var d, free1 := D(), freeblock;
      var part := Readi(src, off, 512);
      var b := part.value;
      r := Iappend(dst, b);
      off' := off + |b|;
      assert b == from[off..off'];
      CopyNext(d0, d, D(), dst, from, off, off', free0, free1, freeblock, |blocks|, r.Panic?);
    }
  }

  /** The copy at byte `off`: what has been read is at the end of the file, and the blocks it took are gone. */
  ghost predicate CopyAt(d0: Disk, d: Disk, dst: nat, from: seq<Byte>, off: nat, free0: nat, free: nat) {
    && dst < |d0.inodes| == |d.inodes| && off <= |from| && OthersSame(d0, d, dst) && OthersMapped(d0, d, dst)
    && d0.inodes[dst].size <= MAXBYTES && d.inodes[dst].size == d0.inodes[dst].size + off <= MAXBYTES
    && Content(d, dst) == Content(d0, dst) + from[..off]
    && free == free0 + Cost(d0.inodes[dst].size, d0.inodes[dst].size + off) <= |d.blocks|
  }

  lemma CopyStarts(d0: Disk, dst: nat, from: seq<Byte>, free0: nat)
    requires dst < |d0.inodes| && d0.inodes[dst].size <= MAXBYTES && free0 <= |d0.blocks|
    ensures CopyAt(d0, d0, dst, from, 0, free0, free0)
  {
    assert Content(d0, dst) + from[..0] == Content(d0, dst);
  }

  lemma CopyNext(d0: Disk, d: Disk, d': Disk, dst: nat, from: seq<Byte>, off: nat, off': nat,
                 free0: nat, free: nat, free': nat, total: nat, full: bool)
    requires CopyAt(d0, d, dst, from, off, free0, free) && off <= off' <= |from| && total == |d.blocks| == |d'.blocks|
    requires full <==> NoRoom(d.inodes[dst].size, off' - off, free, total)
    requires !full ==>
      && |d'.inodes| == |d.inodes| && OthersSame(d, d', dst) && OthersMapped(d, d', dst)
      && d'.inodes[dst].size == d.inodes[dst].size + (off' - off)
      && Content(d', dst) == Content(d, dst) + from[off..off']
      && free' == free + Cost(d.inodes[dst].size, d'.inodes[dst].size)
    ensures full ==> NoRoom(d0.inodes[dst].size, |from|, free0, total)
    ensures !full ==> CopyAt(d0, d', dst, from, off', free0, free')
  {
    var size := d0.inodes[dst].size;
    CostGrows(size, size + off, size + off', size + |from|);
    assert from[..off] + from[off..off'] == from[..off'];
  }

  /** Blocks a file of n bytes takes: its data blocks and, past the direct ones, the indirect block. */
  function BlocksOf(n: nat): nat {
    (n + 511) / 512 + (if n > 512 * NDIRECT then 1 else 0)
  }

  /** Blocks it takes to grow a file from n bytes to n'. */
  function Cost(n: nat, n': nat): int {
    BlocksOf(n') - BlocksOf(n)
  }

  /** The file would be larger than the largest, or the image has too few blocks left. */
  predicate NoRoom(size: nat, n: nat, free: nat, total: nat) {
    size + n > MAXBYTES || free + Cost(size, size + n) > total
  }

  lemma CostGrows(start: nat, off: nat, off': nat, end: nat)
    requires start <= off <= off' <= end
    ensures Cost(start, off') == Cost(start, off) + Cost(off, off') && Cost(start, off') <= Cost(start, end)
  {
  }

  /** Exactly the blocks below `off` are mapped, and the indirect block exactly if one of them needs it. */
  ghost predicate MappedUpTo(d: Disk, i: nat, off: nat)
    requires i < |d.inodes|
  {
    && (forall bn :: 0 <= bn < MAXFILE ==> (Addr(d, i, bn) != 0 <==> 512 * bn < off))
    && (Addr(d, i, INDIRECT) != 0 <==> off > 512 * NDIRECT)
  }

  /** Blocks that mapping block bn takes. */
  function MapCost(d: Disk, i: nat, bn: nat): nat
    requires i < |d.inodes| && bn < MAXFILE
  {
    (if Addr(d, i, bn) == 0 then 1 else 0) + (if bn >= NDIRECT && Addr(d, i, INDIRECT) == 0 then 1 else 0)
  }

  /** No slot but that of block bn, and of the indirect block if bn needs it, has changed; those are mapped. */
  ghost predicate MapsOnly(d: Disk, d': Disk, i: nat, bn: nat)
    requires i < |d.inodes| && bn < MAXFILE
  {
    && |d'.inodes| == |d.inodes| && Addr(d', i, bn) != 0 && (bn >= NDIRECT ==> Addr(d', i, INDIRECT) != 0)
    && (forall j, k :: 0 <= j < |d.inodes| && 0 <= k <= INDIRECT ==>
      (j == i && (k == bn || (k == INDIRECT && bn >= NDIRECT))) || Addr(d', j, k) == Addr(d, j, k))
  }

  ghost predicate OthersMapped(d: Disk, d': Disk, i: nat) {
    |d'.inodes| == |d.inodes| &&
    forall j, k :: 0 <= j < |d.inodes| && 0 <= k <= INDIRECT && j != i ==> Addr(d', j, k) == Addr(d, j, k)
  }

  /** The bytes a have gone in from `start`, and the blocks they took are gone. */
  ghost predicate AppendAt(d0: Disk, d: Disk, i: nat, start: nat, a: seq<Byte>, free0: nat, free: nat) {
    && i < |d0.inodes| == |d.inodes| && |d.blocks| == |d0.blocks| && start + |a| <= MAXBYTES
    && Put(d0, d, i, start, a) && MappedUpTo(d, i, start + |a|) && OthersMapped(d0, d, i)
    && free == free0 + Cost(start, start + |a|) <= |d.blocks|
  }

  lemma AppendStarts(d: Disk, i: nat, start: nat, free: nat)
    requires i < |d.inodes| && start == d.inodes[i].size <= MAXBYTES && free <= |d.blocks|
    requires MappedUpTo(d, i, start)
    ensures AppendAt(d, d, i, start, [], free, free)
  {
    PutNothing(d, i, start);
  }

  /** The next bytes went in after the first k. */
  lemma AppendGrew(d0: Disk, d: Disk, d': Disk, i: nat, start: nat, xp: seq<Byte>, k: nat, k': nat,
                   free0: nat, free: nat, free': nat)
    requires k < k' <= |xp| && AppendAt(d0, d, i, start, xp[..k], free0, free)
    requires start + k < MAXBYTES && (start + k) % 512 + (k' - k) <= 512 && |d'.blocks| == |d.blocks|
    requires Put(d, d', i, start + k, xp[k..k']) && MapsOnly(d, d', i, (start + k) / 512)
    requires free' == free + MapCost(d, i, (start + k) / 512) <= |d.blocks|
    ensures AppendAt(d0, d', i, start, xp[..k'], free0, free')
  {
    var off := start + k;
    CostMore(d, i, start, off, start + k', start + k');
    PutMore(d0, d, d', i, start, xp[..k], xp[k..k']);
    PrefixMore(xp, k, k');
    MappedOneMore(d, d', i, off, k' - k);
  }

  lemma HadRoom(d0: Disk, d: Disk, i: nat, start: nat, a: seq<Byte>, free0: nat, free: nat)
    requires AppendAt(d0, d, i, start, a, free0, free)
    ensures !NoRoom(start, |a|, free0, |d.blocks|)
  {
  }

  lemma CostHere(d: Disk, i: nat, off: nat, n: nat)
    requires i < |d.inodes| && off < MAXBYTES && 0 < n && off % 512 + n <= 512 && MappedUpTo(d, i, off)
    ensures MapCost(d, i, off / 512) == Cost(off, off + n)
  {
    var bn, m := off / 512, off % 512;
    assert off == 512 * bn + m;
    assert (off + n + 511) / 512 == bn + 1;
    assert (off + 511) / 512 == if m == 0 then bn else bn + 1;
  }

  lemma CostMore(d: Disk, i: nat, start: nat, off: nat, off': nat, end: nat)
    requires i < |d.inodes| && start <= off < off' <= end && MappedUpTo(d, i, off)
    requires off < MAXBYTES && off % 512 + (off' - off) <= 512
    ensures Cost(start, off) + MapCost(d, i, off / 512) == Cost(start, off') <= Cost(start, end)
  {
    CostHere(d, i, off, off' - off);
    CostGrows(start, off, off', end);
  }

  lemma MappedOneMore(d: Disk, d': Disk, i: nat, off: nat, n: nat)
    requires i < |d.inodes| && off < MAXBYTES && 0 < n && off % 512 + n <= 512 && MappedUpTo(d, i, off)
    requires MapsOnly(d, d', i, off / 512)
    ensures MappedUpTo(d', i, off + n)
  {
    var bn := off / 512;
    forall k | 0 <= k < MAXFILE ensures Addr(d', i, k) != 0 <==> 512 * k < off + n {
      if k != bn {
        assert Addr(d', i, k) == Addr(d, i, k);
      }
    }
  }

  /** Sizes play no part in where blocks are. */
  lemma SameAddrs(d: Disk, d': Disk)
    requires d'.blocks == d.blocks && |d'.inodes| == |d.inodes|
    requires forall j :: 0 <= j < |d.inodes| ==> d'.inodes[j].addrs == d.inodes[j].addrs
    ensures forall j, k :: 0 <= j < |d.inodes| && 0 <= k <= INDIRECT ==> Addr(d', j, k) == Addr(d, j, k)
  {
  }

  /** Nothing is left in the file's blocks past its end. */
  ghost predicate ZeroTail(d: Disk, i: nat)
    requires i < |d.inodes|
  {
    forall p :: d.inodes[i].size <= p < MAXBYTES ==> Image(d, i)[p] == 0
  }

  /** A file rounded up has all its blocks unless the last one was full. */
  lemma RoundedMap(d: Disk, d': Disk, i: nat)
    requires i < |d.inodes| == |d'.inodes| && d.inodes[i].size < MAXBYTES && MappedUpTo(d, i, d.inodes[i].size)
    requires d'.inodes[i].size == (d.inodes[i].size / 512 + 1) * 512
    requires forall k :: 0 <= k <= INDIRECT ==> Addr(d', i, k) == Addr(d, i, k)
    ensures MappedUpTo(d', i, d'.inodes[i].size) <==> d.inodes[i].size % 512 != 0
  {
    var size, bn := d.inodes[i].size, d.inodes[i].size / 512;
    BlocksBelow(size);
    if size % 512 != 0 {
      forall k | 0 <= k < MAXFILE ensures Addr(d', i, k) != 0 <==> 512 * k < d'.inodes[i].size {
        assert Addr(d', i, k) == Addr(d, i, k);
      }
    } else {
      assert Addr(d', i, bn) == Addr(d, i, bn) == 0;
    }
  }

  lemma BlocksBelow(size: nat)
    ensures size % 512 != 0 ==> forall k: nat :: 512 * k < size <==> 512 * k < (size / 512 + 1) * 512
    ensures size % 512 == 0 ==> size == 512 * (size / 512) < (size / 512 + 1) * 512
    ensures size % 512 != 0 ==> (size > 512 * NDIRECT <==> (size / 512 + 1) * 512 > 512 * NDIRECT)
  {
    assert size == 512 * (size / 512) + size % 512;
  }

  /** A missing indirect block is read from sector 0 as well, and names no block. */
  lemma Indirection(d: Disk, i: nat, bn: nat)
    requires i < |d.inodes| && NDIRECT <= bn < MAXFILE && Addr(d, i, INDIRECT) < |d.blocks| && IsZero(d.blocks[0])
    ensures GetWord(d.blocks[Addr(d, i, INDIRECT)], bn - NDIRECT) == Addr(d, i, bn)
  {
    var ia := Addr(d, i, INDIRECT);
    var w := GetWord(d.blocks[ia], bn - NDIRECT);
    assert Addr(d, i, bn) == if ia == 0 then 0 else w;
    if ia == 0 {
      ZeroWords(d.blocks[ia], bn - NDIRECT);
    }
  }

  lemma InRange(d: Disk, o: Owners, i: nat, k: nat)
    requires Wf(d, o) && i < |d.inodes| && k <= INDIRECT
    ensures Addr(d, i, k) < |d.blocks|
  {
    if Addr(d, i, k) != 0 {
      Below(d, o, i, k);
    }
  }

  /** Part of a sector of the file; sector 0 does for a missing one. */
  lemma SectorBytes(d: Disk, i: nat, at: nat, m: nat)
    requires i < |d.inodes| && at + m <= MAXBYTES && at < MAXBYTES && at % BSIZE + m <= BSIZE
    requires Addr(d, i, at / BSIZE) < |d.blocks| && d.blocks[0] == Zero()
    ensures d.blocks[Addr(d, i, at / BSIZE)][at % BSIZE..at % BSIZE + m] == Image(d, i)[at..at + m]
  {
    if Addr(d, i, at / BSIZE) != 0 {
      BlockBytes(d, i, at, m);
    } else {
      forall q | at <= q < at + m ensures Image(d, i)[q] == 0 {
        SameBlock(at, q);
      }
    }
  }

  /** The bytes put after the end, then the size moved past them. */
  lemma Appended(d0: Disk, d: Disk, d': Disk, i: nat, b: seq<Byte>)
    requires i < |d0.inodes| && d0.inodes[i].size <= MAXBYTES && Put(d0, d, i, d0.inodes[i].size, b)
    requires SameImages(d, d') && d'.inodes == d.inodes[i := d.inodes[i].(size := d0.inodes[i].size + |b|)]
    ensures d'.inodes[i].size <= MAXBYTES && Content(d', i) == Content(d0, i) + b && OthersSame(d0, d', i)
    ensures ZeroTail(d0, i) ==> ZeroTail(d', i)
  {
  }

  /** More blocks mapped; no byte and no size changed. */
  ghost predicate Mapped(d: Disk, d': Disk) {
    Extends(d, d') && SameFiles(d, d')
  }

  lemma MappedThen(d: Disk, d1: Disk, d2: Disk)
    requires Mapped(d, d1) && Mapped(d1, d2)
    ensures Mapped(d, d2)
  {
  }

  lemma Below(d: Disk, o: Owners, i: nat, k: nat)
    requires Wf(d, o) && i < |d.inodes| && k <= INDIRECT && Addr(d, i, k) != 0
    ensures Addr(d, i, k) < |d.blocks| && d.used[Addr(d, i, k)]
  {
    InUse(d, o, i, k);
    assert SlotOk(d, o, i, k);
    assert Owned(d, o, Addr(d, i, k));
  }
}
