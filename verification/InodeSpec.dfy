/**
  Inode content on a block disk, as values: direct and indirect block addresses, the bitmap, and the
  byte image of a file (xv6/fs.c).

  A ghost owner map inverts the addresses: every mapped block belongs to exactly one slot of one inode.
 */
module InodeSpec {

  const BSIZE := 512
  const NDIRECT := 10
  const NINDIRECT := 128
  const MAXFILE := 138 // NDIRECT + NINDIRECT
  const MAXBYTES := 70656 // MAXFILE * BSIZE
  // Slot numbers 0 .. MAXFILE-1 are data blocks; one more for the indirect block itself.
  const INDIRECT := 138

  type Byte = b: int | 0 <= b < 256
  type Block = b: seq<Byte> | |b| == BSIZE witness seq(BSIZE, _ => 0)
  type Addrs = a: seq<nat> | |a| == NDIRECT + 1 witness seq(NDIRECT + 1, _ => 0)

  datatype Inode = Inode(addrs: Addrs, size: nat, ditto: bool)

  /** The disk as the file system sees it: blocks, bitmap, inodes. */
  datatype Disk = Disk(blocks: seq<Block>, used: seq<bool>, inodes: seq<Inode>)

  datatype Slot = Slot(ino: nat, k: nat)

  type Owners = map<nat, Slot>

  function Zero(): (r: Block)
    ensures IsZero(r)
  {
    seq(BSIZE, _ => 0)
  }

  ghost predicate IsZero(b: Block) {
    forall p :: 0 <= p < BSIZE ==> b[p] == 0
  }

  // ---------------------------------------------------------------- words in a block

  function LittleEndian(b0: int, b1: int, b2: int, b3: int): int {
    b0 + 0x100 * b1 + 0x1_0000 * b2 + 0x100_0000 * b3
  }

  /** The j-th 32-bit little-endian word of a block. */
  function GetWord(b: Block, j: nat): nat
    requires j < NINDIRECT
  {
    LittleEndian(b[4 * j], b[4 * j + 1], b[4 * j + 2], b[4 * j + 3])
  }

  function SetWord(b: Block, j: nat, v: nat): Block
    requires j < NINDIRECT && v < 0x1_0000_0000
  {
    var v1, v2, v3 := v / 0x100, v / 0x100 / 0x100, v / 0x100 / 0x100 / 0x100;
    b[4 * j := v % 0x100][4 * j + 1 := v1 % 0x100][4 * j + 2 := v2 % 0x100][4 * j + 3 := v3]
  }

  lemma DigitsOf(v: nat)
    requires v < 0x1_0000_0000
    ensures LittleEndian(v % 0x100, v / 0x100 % 0x100, v / 0x100 / 0x100 % 0x100, v / 0x100 / 0x100 / 0x100) == v
  {
    var v1 := v / 0x100;
    var v2 := v1 / 0x100;
    assert v == 0x100 * v1 + v % 0x100;
    assert v1 == 0x100 * v2 + v1 % 0x100;
  }

  lemma GetSetWord(b: Block, j: nat, v: nat, k: nat)
    requires j < NINDIRECT && k < NINDIRECT && v < 0x1_0000_0000
    ensures GetWord(SetWord(b, j, v), k) == if k == j then v else GetWord(b, k)
  {
    DigitsOf(v);
    var r := SetWord(b, j, v);
    if k == j {
      assert r[4 * k] == v % 0x100 && r[4 * k + 1] == v / 0x100 % 0x100;
      assert r[4 * k + 2] == v / 0x100 / 0x100 % 0x100 && r[4 * k + 3] == v / 0x100 / 0x100 / 0x100;
    } else {
      assert r[4 * k] == b[4 * k] && r[4 * k + 1] == b[4 * k + 1];
      assert r[4 * k + 2] == b[4 * k + 2] && r[4 * k + 3] == b[4 * k + 3];
    }
  }

  lemma ZeroWords(b: Block, j: nat)
    requires IsZero(b) && j < NINDIRECT
    ensures GetWord(b, j) == 0
  {
  }

  // ---------------------------------------------------------------- addresses and bytes

  /** Block address in slot k of an inode; 0 when there is none. */
  function Addr(d: Disk, i: nat, k: nat): nat
    requires i < |d.inodes| && k <= INDIRECT
  {
    SlotAddr(d.blocks, d.inodes[i].addrs, k)
  }

  function SlotAddr(blocks: seq<Block>, a: Addrs, k: nat): nat
    requires k <= INDIRECT
  {
    if k < NDIRECT then a[k]
    else if k == INDIRECT then a[NDIRECT]
    else if a[NDIRECT] == 0 || a[NDIRECT] >= |blocks| then 0
    else GetWord(blocks[a[NDIRECT]], k - NDIRECT)
  }

  /** Each mapped block is in use and has exactly one owning slot; block 0 is never free. */
  ghost predicate Wf(d: Disk, o: Owners) {
    && |d.used| == |d.blocks| <= 0x1_0000_0000
    && |d.blocks| > 0 && d.used[0]
    && (forall a :: a in o ==> Owned(d, o, a))
    && (forall i, k :: 0 <= i < |d.inodes| && 0 <= k <= INDIRECT ==> SlotOk(d, o, i, k))
    && SizesOk(d)
  }

  ghost predicate Owned(d: Disk, o: Owners, a: nat)
    requires a in o
  {
    && 0 < a < |d.blocks| == |d.used| && d.used[a]
    && o[a].ino < |d.inodes| && o[a].k <= INDIRECT && Addr(d, o[a].ino, o[a].k) == a
  }

  ghost predicate SlotOk(d: Disk, o: Owners, i: nat, k: nat)
    requires i < |d.inodes| && k <= INDIRECT
  {
    var a := Addr(d, i, k);
    a != 0 ==> a in o && o[a] == Slot(i, k)
  }

  /** Byte p of a file's image; holes read as zero. */
  function ByteAt(d: Disk, i: nat, p: nat): Byte
    requires i < |d.inodes| && p < MAXBYTES
  {
    var a := Addr(d, i, p / BSIZE);
    if a == 0 || a >= |d.blocks| then 0 else d.blocks[a][p % BSIZE]
  }

  /** The whole image of a file, up to the maximal size. */
  ghost function Image(d: Disk, i: nat): (r: seq<Byte>)
    requires i < |d.inodes|
    ensures |r| == MAXBYTES
    ensures forall p :: 0 <= p < MAXBYTES ==> r[p] == ByteAt(d, i, p)
  {
    seq(MAXBYTES, p requires 0 <= p < MAXBYTES => ByteAt(d, i, p))
  }

  /** What a reader of the file sees. */
  ghost function Content(d: Disk, i: nat): seq<Byte>
    requires i < |d.inodes| && d.inodes[i].size <= MAXBYTES
  {
    Image(d, i)[..d.inodes[i].size]
  }

  /** The guards of writei. */
  predicate WriteAllowed(size: nat, off: nat, n: nat) {
    off <= size && off + n < 0x1_0000_0000 && off + n <= MAXBYTES
  }

  /** Overwrite part of a sequence. */
  function Splice<T>(s: seq<T>, off: nat, b: seq<T>): (r: seq<T>)
    requires off + |b| <= |s|
    ensures |r| == |s|
  {
    s[..off] + b + s[off + |b|..]
  }

  // ---------------------------------------------------------------- what leaves other files alone

  /** Inode i keeps its addresses and, block for block, its data. */
  lemma SameImage(d: Disk, d': Disk, i: nat)
    requires i < |d.inodes| && i < |d'.inodes| && |d'.blocks| == |d.blocks|
    requires forall k :: 0 <= k <= INDIRECT ==> Addr(d', i, k) == Addr(d, i, k)
    requires forall k :: 0 <= k < MAXFILE && 0 < Addr(d, i, k) < |d.blocks| ==>
      d'.blocks[Addr(d, i, k)] == d.blocks[Addr(d, i, k)]
    ensures Image(d', i) == Image(d, i)
  {
    forall p | 0 <= p < MAXBYTES ensures ByteAt(d', i, p) == ByteAt(d, i, p) {
      assert 0 <= p / BSIZE < MAXFILE;
    }
  }

  /** A block with no owner is in no slot. */
  lemma UnownedUnused(d: Disk, o: Owners, b: nat, i: nat, k: nat)
    requires Wf(d, o) && b != 0 && b !in o && i < |d.inodes| && k <= INDIRECT
    ensures Addr(d, i, k) != b
  {
    assert SlotOk(d, o, i, k);
  }

  /** Same disk size, same inodes, same addresses. */
  ghost predicate SameMap(d: Disk, d': Disk) {
    && |d'.blocks| == |d.blocks| && |d'.inodes| == |d.inodes|
    && (forall i, k :: 0 <= i < |d.inodes| && 0 <= k <= INDIRECT ==> Addr(d', i, k) == Addr(d, i, k))
  }

  ghost predicate SameImages(d: Disk, d': Disk) {
    |d'.inodes| == |d.inodes| && forall i :: 0 <= i < |d.inodes| ==> Image(d', i) == Image(d, i)
  }

  ghost predicate SizesOk(d: Disk) {
    forall i :: 0 <= i < |d.inodes| ==> d.inodes[i].size <= MAXBYTES
  }

  /** Blocks other than b are the same. */
  ghost predicate SameBut(d: Disk, d': Disk, b: nat) {
    |d'.blocks| == |d.blocks| && forall a :: 0 <= a < |d.blocks| && a != b ==> d'.blocks[a] == d.blocks[a]
  }

  lemma WfKept(d: Disk, o: Owners, d': Disk)
    requires Wf(d, o) && SameMap(d, d') && SizesOk(d')
    requires |d'.used| == |d.used| && forall a :: 0 <= a < |d.used| && d.used[a] ==> d'.used[a]
    ensures Wf(d', o)
  {
    forall a | a in o ensures Owned(d', o, a) {
      assert Owned(d, o, a);
    }
    forall i, k | 0 <= i < |d.inodes| && 0 <= k <= INDIRECT ensures SlotOk(d', o, i, k) {
      assert SlotOk(d, o, i, k);
    }
  }

  /** Changing an unowned block changes no address and no image. */
  lemma UnownedChange(d: Disk, o: Owners, b: nat, d': Disk)
    requires Wf(d, o) && 0 < b < |d.blocks| && b !in o
    requires d'.inodes == d.inodes && SameBut(d, d', b)
    ensures SameMap(d, d') && SameImages(d, d')
  {
    forall i, k | 0 <= i < |d.inodes| && 0 <= k <= INDIRECT
      ensures Addr(d', i, k) == Addr(d, i, k) && Addr(d, i, k) != b
    {
      UnownedUnused(d, o, b, i, INDIRECT);
      UnownedUnused(d, o, b, i, k);
    }
    forall i | 0 <= i < |d.inodes| ensures Image(d', i) == Image(d, i) {
      SameImage(d, d', i);
    }
  }

  // ---------------------------------------------------------------- allocation

  /** `balloc` of free block b: marked in use and zeroed. */
  function Allocated(d: Disk, b: nat): Disk
    requires b < |d.blocks| == |d.used|
  {
    d.(blocks := d.blocks[b := Zero()], used := d.used[b := true])
  }

  lemma FreeUnowned(d: Disk, o: Owners, b: nat)
    requires Wf(d, o) && b < |d.blocks| && !d.used[b]
    ensures 0 < b && b !in o
  {
    assert b in o ==> Owned(d, o, b);
  }

  lemma AllocatedWf(d: Disk, o: Owners, b: nat)
    requires Wf(d, o) && b < |d.blocks| && !d.used[b]
    ensures 0 < b && b !in o && Wf(Allocated(d, b), o)
    ensures SameMap(d, Allocated(d, b)) && SameImages(d, Allocated(d, b))
  {
    FreeUnowned(d, o, b);
    var d' := Allocated(d, b);
    UnownedChange(d, o, b, d');
    WfKept(d, o, d');
  }

  /** Only slot k of inode i changed its address. */
  ghost predicate SameMapBut(d: Disk, d': Disk, i: nat, k: nat) {
    && |d'.blocks| == |d.blocks| && |d'.inodes| == |d.inodes|
    && (forall j, l :: 0 <= j < |d.inodes| && 0 <= l <= INDIRECT && (j != i || l != k) ==>
      Addr(d', j, l) == Addr(d, j, l))
  }

  /** Data blocks keep their bytes. */
  ghost predicate SameData(d: Disk, d': Disk) {
    && |d'.blocks| == |d.blocks|
    && (forall j, l :: 0 <= j < |d.inodes| && 0 <= l < MAXFILE && 0 < Addr(d, j, l) < |d.blocks| ==>
      d'.blocks[Addr(d, j, l)] == d.blocks[Addr(d, j, l)])
  }

  /** Hanging a fresh zero block on an empty slot gives it an owner and changes no byte of any file. */
  lemma Attach(d: Disk, o: Owners, b: nat, i: nat, k: nat, d': Disk)
    requires Wf(d, o) && 0 < b < |d.blocks| && b !in o && d.used[b] && d'.used == d.used && SizesOk(d')
    requires i < |d.inodes| && k <= INDIRECT && Addr(d, i, k) == 0
    requires SameMapBut(d, d', i, k) && Addr(d', i, k) == b
    requires SameData(d, d') && IsZero(d'.blocks[b])
    ensures Wf(d', o[b := Slot(i, k)]) && SameImages(d, d')
  {
    var o' := o[b := Slot(i, k)];
    forall a | a in o' ensures Owned(d', o', a) {
      assert a in o ==> Owned(d, o, a);
    }
    forall j, l | 0 <= j < |d.inodes| && 0 <= l <= INDIRECT ensures SlotOk(d', o', j, l) {
      assert SlotOk(d, o, j, l);
    }
    forall j | 0 <= j < |d.inodes| ensures Image(d', j) == Image(d, j) {
      AttachImage(d, b, i, k, d', j);
    }
  }

  lemma AttachImage(d: Disk, b: nat, i: nat, k: nat, d': Disk, j: nat)
    requires 0 < b < |d.blocks| && i < |d.inodes| && k <= INDIRECT && Addr(d, i, k) == 0
    requires SameMapBut(d, d', i, k) && Addr(d', i, k) == b
    requires SameData(d, d') && IsZero(d'.blocks[b]) && j < |d.inodes|
    ensures Image(d', j) == Image(d, j)
  {
    forall p | 0 <= p < MAXBYTES ensures ByteAt(d', j, p) == ByteAt(d, j, p) {
      assert 0 <= p / BSIZE < MAXFILE;
    }
  }

  // ---------------------------------------------------------------- bmap

  function SetAddr(d: Disk, i: nat, k: nat, a: nat): Disk
    requires i < |d.inodes| && k <= NDIRECT
  {
    d.(inodes := d.inodes[i := d.inodes[i].(addrs := d.inodes[i].addrs[k := a])])
  }

  ghost predicate NoWords(b: Block) {
    forall j :: 0 <= j < NINDIRECT ==> GetWord(b, j) == 0
  }

  lemma ZeroNoWords(b: Block)
    requires IsZero(b)
    ensures NoWords(b)
  {
    forall j | 0 <= j < NINDIRECT ensures GetWord(b, j) == 0 {
      ZeroWords(b, j);
    }
  }

  lemma EmptyIndirect(blocks: seq<Block>, a: Addrs, l: nat)
    requires 0 < a[NDIRECT] < |blocks| && NoWords(blocks[a[NDIRECT]]) && NDIRECT <= l < INDIRECT
    ensures SlotAddr(blocks, a, l) == 0
  {
  }

  lemma SetAddrElsewhere(d: Disk, b: nat, i: nat, k: nat, j: nat, l: nat)
    requires 0 < b < |d.blocks| && NoWords(d.blocks[b]) && i < |d.inodes| && j < |d.inodes|
    requires k <= NDIRECT && d.inodes[i].addrs[k] == 0 && l <= INDIRECT
    requires j != i || l != if k < NDIRECT then k else INDIRECT
    ensures Addr(SetAddr(d, i, k, b), j, l) == Addr(d, j, l)
  {
    var d' := SetAddr(d, i, k, b);
    if j != i {
      assert d'.inodes[j] == d.inodes[j];
    } else if k == NDIRECT {
      if NDIRECT <= l < INDIRECT {
        EmptyIndirect(d.blocks, d'.inodes[i].addrs, l);
      }
    } else {
      assert d'.inodes[i].addrs[NDIRECT] == d.inodes[i].addrs[NDIRECT];
    }
  }

  /** A fresh block recorded in the inode: a direct block, or the indirect block. */
  lemma AttachInInode(d: Disk, o: Owners, b: nat, i: nat, k: nat)
    requires Wf(d, o) && 0 < b < |d.blocks| && b !in o && d.used[b] && IsZero(d.blocks[b])
    requires i < |d.inodes| && k <= NDIRECT && d.inodes[i].addrs[k] == 0
    ensures var s := if k < NDIRECT then k else INDIRECT; var d' := SetAddr(d, i, k, b);
      Wf(d', o[b := Slot(i, s)]) && SameImages(d, d') && SameMapBut(d, d', i, s) && Addr(d', i, s) == b
  {
    var s := if k < NDIRECT then k else INDIRECT;
    var d' := SetAddr(d, i, k, b);
    ZeroNoWords(d.blocks[b]);
    forall j, l | 0 <= j < |d.inodes| && 0 <= l <= INDIRECT && (j != i || l != s)
      ensures Addr(d', j, l) == Addr(d, j, l)
    {
      SetAddrElsewhere(d, b, i, k, j, l);
    }
    Attach(d, o, b, i, s, d');
  }

  function SetEntry(d: Disk, ia: nat, j: nat, a: nat): Disk
    requires ia < |d.blocks| && j < NINDIRECT && a < 0x1_0000_0000
  {
    d.(blocks := d.blocks[ia := SetWord(d.blocks[ia], j, a)])
  }

  lemma IndirectIsApart(d: Disk, o: Owners, i: nat, j: nat, l: nat)
    requires Wf(d, o) && i < |d.inodes| && j < |d.inodes| && l <= INDIRECT
    requires Addr(d, i, INDIRECT) != 0 && (j != i || l != INDIRECT)
    ensures Addr(d, j, l) != Addr(d, i, INDIRECT)
  {
    assert SlotOk(d, o, i, INDIRECT) && SlotOk(d, o, j, l);
  }

  lemma EntrySet(d: Disk, o: Owners, i: nat, e: nat, b: nat, j: nat, l: nat)
    requires Wf(d, o) && i < |d.inodes| && e < NINDIRECT && b < |d.blocks| && j < |d.inodes| && l <= INDIRECT
    requires 0 < Addr(d, i, INDIRECT) < |d.blocks|
    ensures Addr(SetEntry(d, Addr(d, i, INDIRECT), e, b), j, l) ==
      if j == i && l == NDIRECT + e then b else Addr(d, j, l)
  {
    IndirectOthers(d, o, i, j);
    if NDIRECT <= l < INDIRECT {
      GetSetWord(d.blocks[Addr(d, i, INDIRECT)], e, b, l - NDIRECT);
    }
  }

  lemma IndirectOthers(d: Disk, o: Owners, i: nat, j: nat)
    requires Wf(d, o) && i < |d.inodes| && j < |d.inodes| && Addr(d, i, INDIRECT) != 0
    ensures j != i ==> Addr(d, j, INDIRECT) != Addr(d, i, INDIRECT)
  {
    assert SlotOk(d, o, i, INDIRECT) && SlotOk(d, o, j, INDIRECT);
  }

  /** A fresh block recorded in the indirect block. */
  lemma AttachInIndirect(d: Disk, o: Owners, b: nat, i: nat, e: nat)
    requires Wf(d, o) && 0 < b < |d.blocks| && b !in o && d.used[b] && IsZero(d.blocks[b])
    requires i < |d.inodes| && e < NINDIRECT && 0 < Addr(d, i, INDIRECT) < |d.blocks| && Addr(d, i, NDIRECT + e) == 0
    ensures var d' := SetEntry(d, Addr(d, i, INDIRECT), e, b);
      && Wf(d', o[b := Slot(i, NDIRECT + e)]) && SameImages(d, d')
      && SameMapBut(d, d', i, NDIRECT + e) && Addr(d', i, NDIRECT + e) == b
  {
    var ia := Addr(d, i, INDIRECT);
    var d' := SetEntry(d, ia, e, b);
    forall j, l | 0 <= j < |d.inodes| && 0 <= l <= INDIRECT
      ensures Addr(d', j, l) == if j == i && l == NDIRECT + e then b else Addr(d, j, l)
    {
      EntrySet(d, o, i, e, b, j, l);
    }
    forall j, l | 0 <= j < |d.inodes| && 0 <= l < MAXFILE && 0 < Addr(d, j, l) < |d.blocks|
      ensures d'.blocks[Addr(d, j, l)] == d.blocks[Addr(d, j, l)]
    {
      IndirectIsApart(d, o, i, j, l);
    }
    UnownedUnused(d, o, b, i, INDIRECT);
    Attach(d, o, b, i, NDIRECT + e, d');
  }

  // ---------------------------------------------------------------- writing data

  /** Bytes copied into data block a, starting at byte `at` of the block. */
  function WriteIn(d: Disk, a: nat, at: nat, bytes: seq<Byte>): Disk
    requires a < |d.blocks| && at + |bytes| <= BSIZE
  {
    d.(blocks := d.blocks[a := Splice(d.blocks[a], at, bytes)])
  }

  lemma DataIsApart(d: Disk, o: Owners, i: nat, bn: nat, j: nat, l: nat)
    requires Wf(d, o) && i < |d.inodes| && bn < MAXFILE && j < |d.inodes| && l <= INDIRECT
    requires Addr(d, i, bn) != 0 && (j != i || l != bn)
    ensures Addr(d, j, l) != Addr(d, i, bn)
  {
    assert SlotOk(d, o, i, bn) && SlotOk(d, o, j, l);
  }

  /** Changing a data block changes no address. */
  lemma DataMap(d: Disk, o: Owners, i: nat, bn: nat, d': Disk)
    requires Wf(d, o) && i < |d.inodes| && bn < MAXFILE && 0 < Addr(d, i, bn) < |d.blocks|
    requires d'.inodes == d.inodes && SameBut(d, d', Addr(d, i, bn))
    ensures SameMap(d, d')
  {
    forall j, l | 0 <= j < |d.inodes| && 0 <= l <= INDIRECT ensures Addr(d', j, l) == Addr(d, j, l) {
      DataIsApart(d, o, i, bn, j, INDIRECT);
    }
  }

  /** The file sees the bytes at their offset, and every other file is as before. */
  lemma WriteInImage(d: Disk, o: Owners, i: nat, off: nat, bytes: seq<Byte>)
    requires Wf(d, o) && i < |d.inodes| && off < MAXBYTES && off % BSIZE + |bytes| <= BSIZE
    requires 0 < Addr(d, i, off / BSIZE) < |d.blocks|
    ensures var d' := WriteIn(d, Addr(d, i, off / BSIZE), off % BSIZE, bytes);
      && Wf(d', o) && off + |bytes| <= MAXBYTES
      && Image(d', i) == Splice(Image(d, i), off, bytes)
      && forall j :: 0 <= j < |d.inodes| && j != i ==> Image(d', j) == Image(d, j)
  {
    var a := Addr(d, i, off / BSIZE);
    var d' := WriteIn(d, a, off % BSIZE, bytes);
    DataMap(d, o, i, off / BSIZE, d');
    WfKept(d, o, d');
    forall p | 0 <= p < MAXBYTES ensures ByteAt(d', i, p) == Splice(Image(d, i), off, bytes)[p] {
      WriteInByte(d, o, i, off, bytes, p);
    }
    forall j | 0 <= j < |d.inodes| && j != i ensures Image(d', j) == Image(d, j) {
      forall k | 0 <= k < MAXFILE ensures Addr(d, j, k) != a {
        DataIsApart(d, o, i, off / BSIZE, j, k);
      }
      SameImage(d, d', j);
    }
  }

  lemma WriteInByte(d: Disk, o: Owners, i: nat, off: nat, bytes: seq<Byte>, p: nat)
    requires Wf(d, o) && i < |d.inodes| && off < MAXBYTES && off % BSIZE + |bytes| <= BSIZE && p < MAXBYTES
    requires 0 < Addr(d, i, off / BSIZE) < |d.blocks|
    requires SameMap(d, WriteIn(d, Addr(d, i, off / BSIZE), off % BSIZE, bytes))
    ensures ByteAt(WriteIn(d, Addr(d, i, off / BSIZE), off % BSIZE, bytes), i, p) ==
      if off <= p < off + |bytes| then bytes[p - off] else ByteAt(d, i, p)
  {
    if p / BSIZE != off / BSIZE {
      DataIsApart(d, o, i, off / BSIZE, i, p / BSIZE);
    }
  }

  // ---------------------------------------------------------------- truncation

  /** The bitmap after the blocks in the slots of inode i below k were freed. */
  ghost function Freed(used: seq<bool>, o: Owners, i: nat, k: nat): (r: seq<bool>)
    ensures |r| == |used|
    ensures forall b :: 0 <= b < |used| ==> r[b] == (used[b] && !(b in o && o[b].ino == i && o[b].k < k))
  {
    seq(|used|, b requires 0 <= b < |used| => used[b] && !(b in o && o[b].ino == i && o[b].k < k))
  }

  /** Freeing the block of the next slot: its bit was still set. */
  lemma FreedNext(d: Disk, o: Owners, i: nat, k: nat)
    requires Wf(d, o) && i < |d.inodes| && k <= INDIRECT
    ensures var a := Addr(d, i, k); var u := Freed(d.used, o, i, k);
      if a == 0 then Freed(d.used, o, i, k + 1) == u
      else a < |u| && u[a] && Freed(d.used, o, i, k + 1) == u[a := false]
  {
    var a := Addr(d, i, k);
    assert SlotOk(d, o, i, k);
    forall b | b in o && o[b].ino == i && o[b].k == k ensures b == a != 0 {
      assert Owned(d, o, b);
    }
    if a != 0 {
      assert Owned(d, o, a);
    }
  }

  /** `itrunc`: no addresses left, size zero, all blocks of the inode free. */
  function Truncated(d: Disk, i: nat, used: seq<bool>): Disk
    requires i < |d.inodes|
  {
    d.(used := used, inodes := d.inodes[i := d.inodes[i].(addrs := seq(NDIRECT + 1, _ => 0), size := 0)])
  }

  ghost function OthersOnly(o: Owners, i: nat): Owners {
    map a | a in o && o[a].ino != i :: o[a]
  }

  lemma TruncatedMap(d: Disk, i: nat, used: seq<bool>, j: nat, k: nat)
    requires i < |d.inodes| && j < |d.inodes| && k <= INDIRECT
    ensures Addr(Truncated(d, i, used), j, k) == if j == i then 0 else Addr(d, j, k)
  {
    var d' := Truncated(d, i, used);
    assert j != i ==> d'.inodes[j] == d.inodes[j];
  }

  lemma TruncatedWf(d: Disk, o: Owners, i: nat)
    requires Wf(d, o) && i < |d.inodes|
    ensures var d' := Truncated(d, i, Freed(d.used, o, i, INDIRECT + 1));
      && Wf(d', OthersOnly(o, i))
      && (forall p :: 0 <= p < MAXBYTES ==> Image(d', i)[p] == 0)
      && (forall j :: 0 <= j < |d.inodes| && j != i ==> Image(d', j) == Image(d, j))
  {
    var used := Freed(d.used, o, i, INDIRECT + 1);
    var d', o' := Truncated(d, i, used), OthersOnly(o, i);
    forall a | a in o' ensures Owned(d', o', a) {
      assert Owned(d, o, a);
      TruncatedMap(d, i, used, o[a].ino, o[a].k);
    }
    assert forall a :: a in o ==> Owned(d, o, a);
    forall j, k | 0 <= j < |d.inodes| && 0 <= k <= INDIRECT ensures SlotOk(d', o', j, k) {
      TruncatedMap(d, i, used, j, k);
      assert SlotOk(d, o, j, k);
    }
    forall j | 0 <= j < |d.inodes| && j != i ensures Image(d', j) == Image(d, j) {
      forall k | 0 <= k <= INDIRECT ensures Addr(d', j, k) == Addr(d, j, k) {
        TruncatedMap(d, i, used, j, k);
      }
      SameImage(d, d', j);
    }
    forall p | 0 <= p < MAXBYTES ensures ByteAt(d', i, p) == 0 {
      TruncatedMap(d, i, used, i, p / BSIZE);
    }
  }
}
