/**
  Block allocation, block mapping, reading, writing and truncating inodes, as the loops of xv6/fs.c and
  the chunked `filewrite` of xv6/file.c run them, proved against the byte images of InodeSpec.
 */
module InodeFs {
  import opened Basics
  import opened InodeSpec

  // bits per bitmap block: BSIZE * 8
  const BPB := 4096
  // the most bytes filewrite puts into one transaction: ((LOGSIZE - 1 - 1 - 2) / 2) * 512
  const CHUNK := 6656

  class FileSystem {
    var blocks: seq<Block>
    var used: seq<bool>
    var inodes: seq<Inode>
    ghost var owner: Owners

    ghost function D(): Disk
      reads this
    {
      Disk(blocks, used, inodes)
    }

    ghost predicate Valid()
      reads this
    {
      Wf(D(), owner)
    }

    /** First free block, marked in use and zeroed. */
    method Balloc() returns (r: Outcome<nat>)
      requires |used| == |blocks|
      modifies `used, `blocks
      ensures !r.Error?
      ensures r.Panic? ==> D() == old(D()) && forall a :: 0 <= a < |used| ==> used[a]
      ensures r.Done? ==> r.value < old(|blocks|) && !old(used)[r.value]
      ensures r.Done? ==> forall a :: 0 <= a < r.value ==> old(used)[a]
      ensures r.Done? ==> D() == Allocated(old(D()), r.value)
    {
      var b := 0;
      while b < |used|
        invariant b >= 0 && D() == old(D())
        invariant forall a :: 0 <= a < b && a < |used| ==> used[a]
      {
        var bi := 0;
        while bi < BPB && b + bi < |used|
          invariant 0 <= bi <= BPB && D() == old(D())
          invariant forall a :: 0 <= a < b + bi && a < |used| ==> used[a]
        {
          if !used[b + bi] {
            used := used[b + bi := true];
            blocks := blocks[b + bi := Zero()];
            return Done(b + bi);
          }
          bi := bi + 1;
        }
        b := b + BPB;
      }
      return Panic;
    }

    /** Panics exactly when the block is already free. */
    method Bfree(b: nat) returns (r: Outcome<()>)
      requires b < |used|
      modifies `used
      ensures r == if old(used)[b] then Done(()) else Panic
      ensures used == old(used)[b := false]
    {
      if !used[b] {
        return Panic;
      }
      used := used[b := false];
      return Done(());
    }

    /**
      Address of block bn of a file, allocating it, and the indirect block, when missing. No byte of any
      file changes, and no other slot moves. Panics only past the largest file or with no block left.
     */
    method Bmap(i: nat, bn: nat) returns (r: Outcome<nat>)
      requires Valid() && i < |inodes|
      modifies this
      ensures Valid() && SameImages(old(D()), D()) && Extends(old(D()), D())
      ensures SameShape(old(inodes), inodes) && |blocks| == old(|blocks|)
      ensures bn < MAXFILE && old(Addr(D(), i, bn)) != 0 ==> D() == old(D())
      ensures r.Done? ==> bn < MAXFILE && r.value == Addr(D(), i, bn) && 0 < r.value < |blocks|
      ensures !r.Done? ==> r.Panic? && (bn >= MAXFILE || forall a :: 0 <= a < |used| ==> used[a])
    {
      if bn < NDIRECT {
        r := MapInInode(i, bn);
        return;
      }
      if bn < MAXFILE {
        r := MapInInode(i, NDIRECT);
        if r.Panic? {
          return;
        }
        r := MapInIndirect(i, bn - NDIRECT);
        return;
      }
      return Panic;
    }

    /** Address k of the inode itself, allocated when it is 0. */
    method MapInInode(i: nat, k: nat) returns (r: Outcome<nat>)
      requires Valid() && i < |inodes| && k <= NDIRECT
      modifies this
      ensures Valid() && SameImages(old(D()), D()) && Extends(old(D()), D())
      ensures SameShape(old(inodes), inodes) && |blocks| == old(|blocks|)
      ensures old(inodes)[i].addrs[k] != 0 ==> D() == old(D())
      ensures r.Done? ==> r.value == inodes[i].addrs[k] && 0 < r.value < |blocks|
      ensures !r.Done? ==> r.Panic? && forall a :: 0 <= a < |used| ==> used[a]
    {
      ghost var slot := if k < NDIRECT then k else INDIRECT;
      var addr := inodes[i].addrs[k];
      if addr != 0 {
        InUse(D(), owner, i, slot);
        return Done(addr);
      }
      ghost var d := D();
      r := Balloc();
      if r.Done? {
        MappedInInode(d, owner, r.value, i, k);
        inodes := inodes[i := inodes[i].(addrs := inodes[i].addrs[k := r.value])];
        owner := owner[r.value := Slot(i, slot)];
        assert D() == SetAddr(Allocated(d, r.value), i, k, r.value);
      }
    }

    /** Entry e of the indirect block, allocated when it is 0. */
    method MapInIndirect(i: nat, e: nat) returns (r: Outcome<nat>)
      requires Valid() && i < |inodes| && e < NINDIRECT && inodes[i].addrs[NDIRECT] != 0
      modifies this
      ensures Valid() && SameImages(old(D()), D()) && Extends(old(D()), D())
      ensures inodes == old(inodes) && |blocks| == old(|blocks|)
      ensures old(Addr(D(), i, NDIRECT + e)) != 0 ==> D() == old(D())
      ensures r.Done? ==> r.value == Addr(D(), i, NDIRECT + e) && 0 < r.value < |blocks|
      ensures !r.Done? ==> r.Panic? && forall a :: 0 <= a < |used| ==> used[a]
    {
      InUse(D(), owner, i, INDIRECT);
      var ia := inodes[i].addrs[NDIRECT];
      var addr := GetWord(blocks[ia], e);
      if addr != 0 {
        InUse(D(), owner, i, NDIRECT + e);
        return Done(addr);
      }
      ghost var d := D();
      r := Balloc();
      if r.Done? {
        MappedInIndirect(d, owner, r.value, i, e);
        blocks := blocks[ia := SetWord(blocks[ia], e, r.value)];
        owner := owner[r.value := Slot(i, NDIRECT + e)];
        assert D() == SetEntry(Allocated(d, r.value), ia, e, r.value);
      }
    }

    /** One round of the copy loop: bytes that lie in one block of the file. */
    method WriteBlock(i: nat, off: nat, bytes: seq<Byte>) returns (r: Outcome<()>)
      requires Valid() && i < |inodes| && off < MAXBYTES && off % BSIZE + |bytes| <= BSIZE
      modifies this
      ensures Valid() && |inodes| == old(|inodes|) && !r.Error?
      ensures r.Done? ==> Put(old(D()), D(), i, off, bytes)
      ensures r.Panic? ==> forall a :: 0 <= a < |used| ==> used[a]
    {
      var addr := Bmap(i, off / BSIZE);
      if !addr.Done? {
        return Panic;
      }
      ghost var d := D();
      WriteInImage(d, owner, i, off, bytes);
      blocks := blocks[addr.value := Splice(blocks[addr.value], off % BSIZE, bytes)];
      assert D() == WriteIn(d, addr.value, off % BSIZE, bytes);
      return Done(());
    }

    /**
      Fails without touching the disk exactly when the offset is past the end, the 32-bit sum wraps, or
      the file would get too large. Otherwise the image is the old one with the bytes spliced in.
     */
    method Writei(i: nat, off: Word, src: seq<Byte>) returns (r: Outcome<nat>)
      requires Valid() && i < |inodes| && |src| < 0x1_0000_0000
      modifies this
      ensures Valid() && |inodes| == old(|inodes|)
      ensures r.Error? <==> off > old(inodes)[i].size || off + |src| >= 0x1_0000_0000 || off + |src| > 70656
      ensures r.Error? ==> D() == old(D())
      ensures r.Done? ==> r.value == |src| && Wrote(old(D()), D(), i, off, src)
      ensures r.Panic? ==> forall a :: 0 <= a < |used| ==> used[a]
    {
      if off > inodes[i].size || (off + |src|) % 0x1_0000_0000 < off {
        return Error;
      }
      if off + |src| > MAXBYTES {
        return Error;
      }
      var c := CopyIn(i, off, src);
      if c.Panic? {
        return Panic;
      }
      if inodes[i].ditto {
        return Done(|src|);
      }
      if |src| > 0 && off + |src| > inodes[i].size {
        SizeOnly(D(), owner, i, off + |src|);
        inodes := inodes[i := inodes[i].(size := off + |src|)];
      }
      return Done(|src|);
    }

    /** The copy loop of a write. */
    method CopyIn(i: nat, off: nat, src: seq<Byte>) returns (r: Outcome<()>)
      requires Valid() && i < |inodes| && off + |src| <= MAXBYTES
      modifies this
      ensures Valid() && |inodes| == old(|inodes|) && !r.Error?
      ensures r.Done? ==> Put(old(D()), D(), i, off, src)
      ensures r.Panic? ==> forall a :: 0 <= a < |used| ==> used[a]
    {
      ghost var d0, sofar := D(), [];
      var tot, at := 0, off;
      PutNothing(d0, i, off);
      while tot < |src|
        invariant 0 <= tot <= |src| && at == off + tot && |sofar| == tot && sofar == src[..tot]
        invariant Valid() && |inodes| == |d0.inodes| && Put(d0, D(), i, off, sofar)
      {
        var m := Min(|src| - tot, BSIZE - at % BSIZE);
        var part := src[tot..tot + m];
        ghost var d := D();
        r := WriteBlock(i, at, part);
        if r.Panic? {
          return;
        }
        PutMore(d0, d, D(), i, off, sofar, part);
        PrefixMore(src, tot, tot + m);
        sofar := sofar + part;
        tot, at := tot + m, at + m;
      }
      assert sofar == src;
      return Done(());
    }

    /**
      One write per chunk and transaction, stopping at the first that fails. Everything is written exactly
      when it fits as a whole, and otherwise as many whole chunks as do.
     */
    method Filewrite(i: nat, off: Word, src: seq<Byte>) returns (r: Outcome<nat>, written: nat)
      requires Valid() && i < |inodes| && |src| < 0x8000_0000 && !inodes[i].ditto
      modifies this
      ensures Valid() && |inodes| == old(|inodes|)
      ensures r.Done? ==> written == |src| == r.value
      ensures r.Done? ==> src == [] || (off <= old(inodes)[i].size && off + |src| <= 70656)
      ensures r.Error? ==> src != [] && (off > old(inodes)[i].size || off + |src| > 70656) && written < |src|
      ensures r.Error? ==> written == if off > old(inodes)[i].size then 0 else (70656 - off) / 6656 * 6656
      ensures !r.Panic? ==> written <= |src| && Wrote(old(D()), D(), i, off, src[..written])
      ensures r.Panic? ==> forall a :: 0 <= a < |used| ==> used[a]
    {
      ghost var d0, ip, sofar := D(), inodes[i], [];
      written := 0;
      NextChunk(0);
      WroteNothing(d0, i, off);
      while written < |src|
        invariant 0 <= written <= |src| && Valid() && |inodes| == |d0.inodes|
        invariant |sofar| == written && sofar == src[..written]
        invariant WholeChunks(written) || written == |src|
        invariant written > 0 ==> WriteAllowed(ip.size, off, written)
        invariant Wrote(d0, D(), i, off, sofar) && inodes[i].size == SizeAfter(ip, off, written)
      {
        var n1 := Min(|src| - written, CHUNK);
        AllowedNext(ip, off, written, n1);
        PrefixMore(src, written, written + n1);
        NextChunk(written);
        var part := src[written..written + n1];
        r := FilewriteChunk(d0, i, off, sofar, off + written, part);
        if !r.Done? {
          if r.Error? {
            AllowedWhole(ip.size, off, written + n1, |src|);
            LastChunk(ip.size, off, written, n1);
          }
          return;
        }
        sofar := sofar + part;
        written := written + n1;
      }
      assert sofar == src;
      return Done(|src|), written;
    }

    /** The next chunk, b, after a was written from `off`. */
    method FilewriteChunk(ghost d0: Disk, i: nat, ghost off: Word, ghost a: seq<Byte>, at: nat, b: seq<Byte>)
      returns (r: Outcome<nat>)
      requires Valid() && i < |inodes| && 0 < |b| <= CHUNK && at == off + |a|
      requires Wrote(d0, D(), i, off, a) && (a != [] ==> off + |a| <= MAXBYTES)
      modifies this
      ensures Valid() && |inodes| == old(|inodes|)
      ensures r.Error? <==> !WriteAllowed(old(inodes)[i].size, at, |b|)
      ensures r.Error? ==> D() == old(D())
      ensures r.Done? ==> Wrote(d0, D(), i, off, a + b)
      ensures r.Panic? ==> forall a :: 0 <= a < |used| ==> used[a]
    {
      ghost var d := D();
      r := Writei(i, at, b);
      if r.Done? {
        WroteMore(d0, d, D(), i, off, a, b);
      }
    }

    /** One round of the copy loop: m bytes that lie in one block of the file. */
    method ReadBlock(i: nat, at: nat, m: nat) returns (r: Outcome<seq<Byte>>)
      requires Valid() && i < |inodes| && at + m <= MAXBYTES && at < MAXBYTES && at % BSIZE + m <= BSIZE
      modifies this
      ensures Valid() && SameFiles(old(D()), D()) && !r.Error?
      ensures r.Done? ==> r.value == old(Image(D(), i))[at..at + m]
      ensures r.Panic? ==> forall a :: 0 <= a < |used| ==> used[a]
    {
      var addr := Bmap(i, at / BSIZE);
      if !addr.Done? {
        return Panic;
      }
      BlockBytes(D(), i, at, m);
      return Done(blocks[addr.value][at % BSIZE..at % BSIZE + m]);
    }

    /** The bytes of the file from `off`, at most n of them and none past the end; holes read as zero. */
    method Readi(i: nat, off: Word, n: Word) returns (r: Outcome<seq<Byte>>)
      requires Valid() && i < |inodes|
      modifies this
      ensures Valid() && SameFiles(old(D()), D())
      ensures r.Error? <==> off > old(inodes)[i].size || off + n >= 0x1_0000_0000
      ensures r.Error? ==> D() == old(D())
      ensures r.Done? ==> r.value == old(Content(D(), i))[off..Min(off + n, old(inodes)[i].size)]
      ensures r.Panic? ==> forall a :: 0 <= a < |used| ==> used[a]
    {
      if off > inodes[i].size || (off + n) % 0x1_0000_0000 < off {
        return Error;
      }
      var n' := if off + n > inodes[i].size then inodes[i].size - off else n;
      r := CopyOut(i, off, n');
      SliceWithin(old(Image(D(), i)), off, off + n', old(inodes)[i].size);
    }

    /** The copy loop of a read. */
    method CopyOut(i: nat, off: nat, n: nat) returns (r: Outcome<seq<Byte>>)
      requires Valid() && i < |inodes| && off + n <= MAXBYTES
      modifies this
      ensures Valid() && SameFiles(old(D()), D()) && !r.Error?
      ensures r.Done? ==> r.value == old(Image(D(), i))[off..off + n]
      ensures r.Panic? ==> forall a :: 0 <= a < |used| ==> used[a]
    {
      ghost var d0, im := D(), Image(D(), i);
      var tot, at, dst := 0, off, [];
      while tot < n
        invariant 0 <= tot <= n && at == off + tot
        invariant Valid() && SameFiles(d0, D()) && dst == im[off..at]
      {
        var m := Min(n - tot, BSIZE - at % BSIZE);
        ghost var d := D();
        r := ReadBlock(i, at, m);
        SameFilesThen(d0, d, D());
        if r.Panic? {
          return;
        }
        SliceMore(im, off, at, at + m);
        dst := dst + r.value;
        tot, at := tot + m, at + m;
      }
      return Done(dst);
    }

    /** Frees exactly the blocks of this inode, each once, and never meets a free block. */
    method Itrunc(i: nat) returns (r: Outcome<()>)
      requires Valid() && i < |inodes|
      modifies this
      ensures Valid() && r == Done(())
      ensures D() == Truncated(old(D()), i, Freed(old(used), old(owner), i, INDIRECT + 1))
      ensures owner == OthersOnly(old(owner), i)
      ensures inodes[i].size == 0 && forall p :: 0 <= p < MAXBYTES ==> Image(D(), i)[p] == 0
      ensures OthersSame(old(D()), D(), i)
    {
      ghost var d := D();
      TruncatedWf(d, owner, i);
      FreeDirect(i);
      if inodes[i].addrs[NDIRECT] != 0 {
        FreeIndirect(d, i);
        inodes := inodes[i := inodes[i].(addrs := inodes[i].addrs[NDIRECT := 0])];
      } else {
        FreedEmpty(d, owner, i);
      }
      assert inodes[i].addrs == seq(NDIRECT + 1, _ => 0);
      inodes := inodes[i := inodes[i].(size := 0)];
      owner := OthersOnly(owner, i);
      assert D() == Truncated(d, i, Freed(d.used, old(owner), i, INDIRECT + 1));
      return Done(());
    }

    /** The direct blocks: each is freed and its address zeroed. */
    method FreeDirect(i: nat)
      requires Valid() && i < |inodes|
      modifies `used, `inodes
      ensures used == Freed(old(used), owner, i, NDIRECT)
      ensures inodes == old(inodes)[i := old(inodes)[i].(addrs := Cleared(old(inodes)[i].addrs, NDIRECT))]
    {
      ghost var d := D();
      FreedNone(used, owner, i);
      ClearedNone(d.inodes[i].addrs);
      var k := 0;
      while k < NDIRECT
        invariant 0 <= k <= NDIRECT && |inodes| == |d.inodes|
        invariant used == Freed(d.used, owner, i, k)
        invariant inodes == d.inodes[i := d.inodes[i].(addrs := Cleared(d.inodes[i].addrs, k))]
      {
        ClearedNext(d.inodes[i].addrs, k);
        FreeSlot(d, i, k, inodes[i].addrs[k]);
        if inodes[i].addrs[k] != 0 {
          inodes := inodes[i := inodes[i].(addrs := inodes[i].addrs[k := 0])];
        }
        k := k + 1;
      }
    }

    /** The blocks named in the indirect block, then the indirect block. */
    method FreeIndirect(ghost d: Disk, i: nat)
      requires Wf(d, owner) && i < |d.inodes| && |inodes| == |d.inodes| && blocks == d.blocks
      requires inodes[i].addrs[NDIRECT] == d.inodes[i].addrs[NDIRECT] != 0
      requires used == Freed(d.used, owner, i, NDIRECT)
      modifies `used
      ensures used == Freed(d.used, owner, i, INDIRECT + 1)
    {
      InUse(d, owner, i, INDIRECT);
      var ia := inodes[i].addrs[NDIRECT];
      var j := 0;
      while j < NINDIRECT
        invariant 0 <= j <= NINDIRECT
        invariant used == Freed(d.used, owner, i, NDIRECT + j)
      {
        EntryAddr(d, i, j);
        FreeSlot(d, i, NDIRECT + j, GetWord(blocks[ia], j));
        j := j + 1;
      }
      FreeSlot(d, i, INDIRECT, ia);
    }

    /** Frees the block of the next slot, if it has one; its bit is still set, so there is no panic. */
    method FreeSlot(ghost d: Disk, ghost i: nat, ghost k: nat, a: nat)
      requires Wf(d, owner) && i < |d.inodes| && k <= INDIRECT && a == Addr(d, i, k)
      requires used == Freed(d.used, owner, i, k)
      modifies `used
      ensures used == Freed(d.used, owner, i, k + 1)
    {
      FreedNext(d, owner, i, k);
      if a != 0 {
        var r := Bfree(a);
        assert r.Done?;
      }
    }
  }

  /** Sizes and kinds of all inodes are the same. */
  ghost predicate SameShape(s: seq<Inode>, t: seq<Inode>) {
    |s| == |t| && forall i :: 0 <= i < |s| ==> s[i].size == t[i].size && s[i].ditto == t[i].ditto
  }

  /** Every block already mapped stays where it is. */
  ghost predicate Extends(d: Disk, d': Disk) {
    |d'.inodes| == |d.inodes| &&
    forall i, k :: 0 <= i < |d.inodes| && 0 <= k <= INDIRECT && Addr(d, i, k) != 0 ==> Addr(d', i, k) == Addr(d, i, k)
  }

  lemma SameImagesThen(d: Disk, d1: Disk, d2: Disk)
    requires SameImages(d, d1) && SameImages(d1, d2)
    ensures SameImages(d, d2)
  {
  }

  /** balloc, then the address recorded in the inode. */
  lemma MappedInInode(d: Disk, o: Owners, b: nat, i: nat, k: nat)
    requires Wf(d, o) && b < |d.blocks| && !d.used[b] && i < |d.inodes| && k <= NDIRECT && d.inodes[i].addrs[k] == 0
    ensures var s := if k < NDIRECT then k else INDIRECT; var d' := SetAddr(Allocated(d, b), i, k, b);
      0 < b && Wf(d', o[b := Slot(i, s)]) && SameImages(d, d') && Extends(d, d') && SameMapBut(d, d', i, s)
  {
    var d1 := Allocated(d, b);
    AllocatedWf(d, o, b);
    AttachInInode(d1, o, b, i, k);
    SameImagesThen(d, d1, SetAddr(d1, i, k, b));
  }

  /** balloc, then the address recorded in the indirect block. */
  lemma MappedInIndirect(d: Disk, o: Owners, b: nat, i: nat, e: nat)
    requires Wf(d, o) && b < |d.blocks| && !d.used[b] && i < |d.inodes| && e < NINDIRECT
    requires 0 < Addr(d, i, INDIRECT) < |d.blocks| && Addr(d, i, NDIRECT + e) == 0
    ensures var d' := SetEntry(Allocated(d, b), Addr(d, i, INDIRECT), e, b);
      && 0 < b && b != Addr(d, i, INDIRECT)
      && Wf(d', o[b := Slot(i, NDIRECT + e)]) && SameImages(d, d') && Extends(d, d')
      && SameMapBut(d, d', i, NDIRECT + e) && Addr(d', i, NDIRECT + e) == b
  {
    var d1 := Allocated(d, b);
    AllocatedWf(d, o, b);
    UnownedUnused(d, o, b, i, INDIRECT);
    assert Addr(d1, i, INDIRECT) == Addr(d, i, INDIRECT) && Addr(d1, i, NDIRECT + e) == 0;
    AttachInIndirect(d1, o, b, i, e);
    SameImagesThen(d, d1, SetEntry(d1, Addr(d, i, INDIRECT), e, b));
  }

  /** A replica keeps its size; its parent sets it. */
  function SizeAfter(ip: Inode, off: nat, n: nat): nat {
    if ip.ditto || n == 0 || off + n <= ip.size then ip.size else off + n
  }

  /** Every other file has the same bytes and size. */
  ghost predicate OthersSame(d: Disk, d': Disk, i: nat) {
    && |d'.inodes| == |d.inodes|
    && forall j :: 0 <= j < |d.inodes| && j != i ==>
      Image(d', j) == Image(d, j) && d'.inodes[j].size == d.inodes[j].size && d'.inodes[j].ditto == d.inodes[j].ditto
  }

  /** File i had `b` written at `off`, if anything; nothing else changed. */
  ghost predicate Wrote(d: Disk, d': Disk, i: nat, off: nat, b: seq<Byte>) {
    && i < |d.inodes| == |d'.inodes| && OthersSame(d, d', i) && d'.inodes[i].ditto == d.inodes[i].ditto
    && d'.inodes[i].size == SizeAfter(d.inodes[i], off, |b|)
    && (b != [] ==> off + |b| <= MAXBYTES && Image(d', i) == Splice(Image(d, i), off, b))
    && (b == [] ==> Image(d', i) == Image(d, i))
  }

  /** After w bytes went in, the next n are allowed exactly when all w + n were. */
  lemma AllowedNext(ip: Inode, off: nat, w: nat, n: nat)
    requires !ip.ditto && n > 0 && (w > 0 ==> WriteAllowed(ip.size, off, w))
    ensures WriteAllowed(SizeAfter(ip, off, w), off + w, n) <==> WriteAllowed(ip.size, off, w + n)
  {
  }

  lemma AllowedWhole(size: nat, off: nat, m: nat, n: nat)
    requires m <= n
    ensures WriteAllowed(size, off, n) ==> WriteAllowed(size, off, m)
  {
  }

  predicate WholeChunks(n: nat) {
    n % CHUNK == 0
  }

  lemma NextChunk(n: nat)
    ensures WholeChunks(n) ==> WholeChunks(n + CHUNK)
    ensures WholeChunks(0)
  {
  }

  /** A chunk that does not fit after w bytes: w is all the whole chunks there is room for. */
  lemma LastChunk(size: nat, off: nat, w: nat, n: nat)
    requires size <= MAXBYTES && WholeChunks(w) && 0 < n <= CHUNK
    requires (w > 0 ==> WriteAllowed(size, off, w)) && !WriteAllowed(size, off, w + n)
    ensures w == if off > size then 0 else (70656 - off) / 6656 * 6656
  {
    if off <= size {
      var c := w / CHUNK;
      assert w == CHUNK * c && CHUNK * c <= 70656 - off < CHUNK * (c + 1);
      assert (70656 - off) / 6656 == c;
    }
  }

  lemma WroteNothing(d: Disk, i: nat, off: nat)
    requires i < |d.inodes|
    ensures Wrote(d, d, i, off, [])
  {
  }

  lemma WroteMore(d: Disk, d1: Disk, d2: Disk, i: nat, off: nat, a: seq<Byte>, b: seq<Byte>)
    requires Wrote(d, d1, i, off, a) && Wrote(d1, d2, i, off + |a|, b) && b != []
    ensures Wrote(d, d2, i, off, a + b)
  {
    if a == [] {
      assert a + b == b;
    } else {
      SpliceMore(Image(d, i), off, a, b);
    }
  }

  /** What the file holds after a write inside it or at its end: the bytes replace what they cover. */
  lemma ContentAfterWrite(d: Disk, d': Disk, i: nat, off: nat, b: seq<Byte>)
    requires Wrote(d, d', i, off, b) && !d.inodes[i].ditto && b != []
    requires d.inodes[i].size <= MAXBYTES && off <= d.inodes[i].size
    ensures d'.inodes[i].size <= MAXBYTES
    ensures Content(d', i) == Content(d, i)[..off] + b +
      if off + |b| <= d.inodes[i].size then Content(d, i)[off + |b|..] else []
  {
  }

  /** No block belongs to two slots, of one file or of two; every mapped block is in use. */
  lemma NoSharing(d: Disk, o: Owners, i: nat, k: nat, j: nat, l: nat)
    requires Wf(d, o) && i < |d.inodes| && k <= INDIRECT && j < |d.inodes| && l <= INDIRECT
    requires Addr(d, i, k) != 0 && (i != j || k != l)
    ensures Addr(d, i, k) != Addr(d, j, l) && Addr(d, i, k) < |d.used| && d.used[Addr(d, i, k)]
  {
    assert SlotOk(d, o, i, k) && SlotOk(d, o, j, l);
    assert Owned(d, o, Addr(d, i, k));
  }

  /** Truncation clears a bit exactly when the block was in some slot of that inode. */
  lemma FreedExactly(d: Disk, o: Owners, i: nat, b: nat)
    requires Wf(d, o) && i < |d.inodes| && 0 < b < |d.used|
    ensures Freed(d.used, o, i, INDIRECT + 1)[b] <==>
      d.used[b] && !(exists k :: 0 <= k <= INDIRECT && Addr(d, i, k) == b)
  {
    forall k | 0 <= k <= INDIRECT && Addr(d, i, k) == b ensures b in o && o[b] == Slot(i, k) {
      assert SlotOk(d, o, i, k);
    }
    if b in o {
      assert Owned(d, o, b);
      assert Addr(d, o[b].ino, o[b].k) == b;
    }
  }

  /** Bytes put into file i; sizes and other files as before. */
  ghost predicate Put(d: Disk, d': Disk, i: nat, off: nat, b: seq<Byte>) {
    && i < |d.inodes| && off + |b| <= MAXBYTES && SameShape(d.inodes, d'.inodes) && OthersSame(d, d', i)
    && Image(d', i) == Splice(Image(d, i), off, b)
  }

  lemma PutNothing(d: Disk, i: nat, off: nat)
    requires i < |d.inodes| && off <= MAXBYTES
    ensures Put(d, d, i, off, [])
  {
    SpliceNone(Image(d, i), off);
  }

  lemma PutMore(d: Disk, d1: Disk, d2: Disk, i: nat, off: nat, a: seq<Byte>, b: seq<Byte>)
    requires Put(d, d1, i, off, a) && Put(d1, d2, i, off + |a|, b)
    ensures Put(d, d2, i, off, a + b)
  {
    SpliceMore(Image(d, i), off, a, b);
  }

  /** No file changed. */
  ghost predicate SameFiles(d: Disk, d': Disk) {
    SameShape(d.inodes, d'.inodes) && SameImages(d, d')
  }

  lemma SameFilesThen(d: Disk, d1: Disk, d2: Disk)
    requires SameFiles(d, d1) && SameFiles(d1, d2)
    ensures SameFiles(d, d2)
  {
  }

  lemma SliceMore<T>(s: seq<T>, a: nat, b: nat, c: nat)
    requires a <= b <= c <= |s|
    ensures s[a..b] + s[b..c] == s[a..c]
  {
  }

  lemma PrefixMore<T>(s: seq<T>, b: nat, c: nat)
    requires b <= c <= |s|
    ensures s[..b] + s[b..c] == s[..c]
  {
  }

  lemma SliceWithin<T>(s: seq<T>, a: nat, b: nat, c: nat)
    requires a <= b <= c <= |s|
    ensures s[..c][a..b] == s[a..b]
  {
  }

  lemma SpliceNone<T>(s: seq<T>, off: nat)
    requires off <= |s|
    ensures Splice(s, off, []) == s
  {
  }

  lemma SpliceMore<T>(s: seq<T>, off: nat, a: seq<T>, b: seq<T>)
    requires off + |a| + |b| <= |s|
    ensures Splice(Splice(s, off, a), off + |a|, b) == Splice(s, off, a + b)
  {
  }

  lemma SizeOnly(d: Disk, o: Owners, i: nat, size: nat)
    requires Wf(d, o) && i < |d.inodes| && size <= MAXBYTES
    ensures var d' := d.(inodes := d.inodes[i := d.inodes[i].(size := size)]); Wf(d', o) && SameImages(d, d')
  {
    var d' := d.(inodes := d.inodes[i := d.inodes[i].(size := size)]);
    WfKept(d, o, d');
    forall j | 0 <= j < |d.inodes| ensures Image(d', j) == Image(d, j) {
      SameImage(d, d', j);
    }
  }

  lemma SameBlock(at: nat, q: nat)
    requires at <= q < at - at % BSIZE + BSIZE
    ensures q / BSIZE == at / BSIZE && q % BSIZE == at % BSIZE + (q - at)
  {
  }

  /** Bytes inside one block of the file. */
  lemma BlockBytes(d: Disk, i: nat, at: nat, m: nat)
    requires i < |d.inodes| && at + m <= MAXBYTES && at < MAXBYTES && at % BSIZE + m <= BSIZE
    requires 0 < Addr(d, i, at / BSIZE) < |d.blocks|
    ensures d.blocks[Addr(d, i, at / BSIZE)][at % BSIZE..at % BSIZE + m] == Image(d, i)[at..at + m]
  {
    var b, im := d.blocks[Addr(d, i, at / BSIZE)], Image(d, i);
    forall q | at <= q < at + m ensures im[q] == b[at % BSIZE + (q - at)] {
      SameBlock(at, q);
    }
  }

  /** The first k direct addresses zeroed. */
  ghost function Cleared(a: Addrs, k: nat): (r: Addrs)
    requires k <= NDIRECT + 1
    ensures forall l :: 0 <= l <= NDIRECT ==> r[l] == if l < k then 0 else a[l]
  {
    seq(NDIRECT + 1, l requires 0 <= l <= NDIRECT => if l < k then 0 else a[l])
  }

  lemma ClearedNext(a: Addrs, k: nat)
    requires k <= NDIRECT
    ensures Cleared(a, k + 1) == Cleared(a, k)[k := 0]
    ensures a[k] == 0 ==> Cleared(a, k + 1) == Cleared(a, k)
  {
  }

  lemma ClearedNone(a: Addrs)
    ensures Cleared(a, 0) == a
  {
  }

  lemma EntryAddr(d: Disk, i: nat, j: nat)
    requires i < |d.inodes| && j < NINDIRECT && 0 < d.inodes[i].addrs[NDIRECT] < |d.blocks|
    ensures Addr(d, i, NDIRECT + j) == GetWord(d.blocks[d.inodes[i].addrs[NDIRECT]], j)
  {
  }

  lemma FreedNone(used: seq<bool>, o: Owners, i: nat)
    ensures Freed(used, o, i, 0) == used
  {
  }

  /** With no indirect block there is nothing more to free. */
  lemma FreedEmpty(d: Disk, o: Owners, i: nat)
    requires Wf(d, o) && i < |d.inodes| && d.inodes[i].addrs[NDIRECT] == 0
    ensures Freed(d.used, o, i, INDIRECT + 1) == Freed(d.used, o, i, NDIRECT)
  {
    assert forall b :: b in o ==> Owned(d, o, b);
  }

  lemma InUse(d: Disk, o: Owners, i: nat, k: nat)
    requires Wf(d, o) && i < |d.inodes| && k <= INDIRECT && Addr(d, i, k) != 0
    ensures Addr(d, i, k) < |d.blocks|
  {
    assert SlotOk(d, o, i, k);
    assert Owned(d, o, Addr(d, i, k));
  }
}
