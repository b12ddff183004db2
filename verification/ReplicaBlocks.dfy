/**
  Replicas on the block disk: the write of xv6/fs.c that follows the children, made of the block loops of
  InodeFs. What it leaves on the disk is what Replica says of files seen as byte images, so a file and its
  replicas that are in step have the same content, block for block.
 */
module ReplicaBlocks {
  import opened Basics
  import InodeSpec
  import InodeFs
  import Checksum
  import opened Replica
  import opened ReplicaFs

  // ---------------------------------------------------------------- bytes and their bits

  /** The eight bits of a byte, lowest first. */
  function Bits(x: InodeSpec.Byte): Checksum.Byte {
    [Bit(x, 0), Bit(x, 1), Bit(x, 2), Bit(x, 3), Bit(x, 4), Bit(x, 5), Bit(x, 6), Bit(x, 7)]
  }

  predicate Bit(x: nat, k: nat) {
    if k == 0 then x % 2 == 1 else Bit(x / 2, k - 1)
  }

  lemma {:induction false} SameBits(x: nat, y: nat, n: nat, limit: nat)
    requires x < limit && y < limit && limit == Power(n)
    requires forall k :: 0 <= k < n ==> Bit(x, k) == Bit(y, k)
    ensures x == y
    decreases n
  {
    if n > 0 {
      assert Bit(x, 0) == Bit(y, 0);
      forall k | 0 <= k < n - 1 ensures Bit(x / 2, k) == Bit(y / 2, k) {
        assert Bit(x, k + 1) == Bit(y, k + 1);
      }
      SameBits(x / 2, y / 2, n - 1, Power(n - 1));
    }
  }

  function Power(n: nat): nat {
    if n == 0 then 1 else 2 * Power(n - 1)
  }

  lemma BitsDiffer(x: InodeSpec.Byte, y: InodeSpec.Byte)
    requires Bits(x) == Bits(y)
    ensures x == y
  {
    forall k | 0 <= k < 8 ensures Bit(x, k) == Bit(y, k) {
      assert Bits(x)[k] == Bit(x, k) && Bits(y)[k] == Bit(y, k);
    }
    assert Power(4) == 16 && Power(6) == 64 && Power(8) == 256;
    SameBits(x, y, 8, 256);
  }

  function AllBits(s: seq<InodeSpec.Byte>): (r: seq<Checksum.Byte>)
    ensures |r| == |s| && forall k :: 0 <= k < |s| ==> r[k] == Bits(s[k])
  {
    seq(|s|, k requires 0 <= k < |s| => Bits(s[k]))
  }

  lemma AllBitsDiffer(s: seq<InodeSpec.Byte>, t: seq<InodeSpec.Byte>)
    requires AllBits(s) == AllBits(t)
    ensures s == t
  {
    assert |s| == |AllBits(s)| == |AllBits(t)| == |t|;
    forall k | 0 <= k < |s| ensures s[k] == t[k] {
      assert AllBits(s)[k] == AllBits(t)[k];
      BitsDiffer(s[k], t[k]);
    }
  }

  lemma AllBitsSplice(s: seq<InodeSpec.Byte>, off: nat, b: seq<InodeSpec.Byte>)
    requires off + |b| <= |s|
    ensures AllBits(InodeSpec.Splice(s, off, b)) == InodeSpec.Splice(AllBits(s), off, AllBits(b))
  {
  }

  lemma AllBitsPrefix(s: seq<InodeSpec.Byte>, n: nat)
    requires n <= |s|
    ensures AllBits(s[..n]) == AllBits(s)[..n]
  {
  }

  // ---------------------------------------------------------------- files as the disk holds them

  /** Inode j of the disk holds file ip: its bytes, its size, and whether it is a replica. */
  ghost predicate ShowsAt(d: InodeSpec.Disk, j: nat, ip: Inode)
    requires j < |d.inodes|
  {
    && ip.image == AllBits(InodeSpec.Image(d, j)) && ip.size == d.inodes[j].size
    && (ip.kind == Ditto <==> d.inodes[j].ditto)
  }

  ghost predicate Shows(d: InodeSpec.Disk, t: Files) {
    |t| == |d.inodes| && forall j :: 0 <= j < |t| ==> ShowsAt(d, j, t[j])
  }

  /** Inode c of the disk has the content of inode p. */
  ghost predicate SameContent(d: InodeSpec.Disk, p: nat, c: nat) {
    && p < |d.inodes| && c < |d.inodes| && d.inodes[c].size == d.inodes[p].size <= InodeSpec.MAXBYTES
    && InodeSpec.Content(d, c) == InodeSpec.Content(d, p)
  }

  /** A file in step with its replicas has replicas with the same content on the disk. */
  lemma SameOnDisk(d: InodeSpec.Disk, t: Files, p: nat, c: nat)
    requires Tree(t) && Shows(d, t) && p < |t| && Synced(t, p) && IsChild(t[p], c)
    ensures SameContent(d, p, c)
  {
    assert ChildOk(t, p, c) && Agrees(t, p, c) && ShowsAt(d, p, t[p]) && ShowsAt(d, c, t[c]);
    var n := t[p].size;
    AllBitsPrefix(InodeSpec.Image(d, p), n);
    AllBitsPrefix(InodeSpec.Image(d, c), n);
    AllBitsDiffer(InodeSpec.Content(d, c), InodeSpec.Content(d, p));
  }

  /** The copy loop splices the bytes into the file's image. */
  lemma PutShows(d: InodeSpec.Disk, d': InodeSpec.Disk, t: Files, i: nat, off: nat, b: seq<InodeSpec.Byte>)
    requires Shows(d, t) && i < |t| && InodeFs.Put(d, d', i, off, b)
    ensures Shows(d', t[i := Spliced(t[i], off, AllBits(b))])
  {
    AllBitsSplice(InodeSpec.Image(d, i), off, b);
    var t' := t[i := Spliced(t[i], off, AllBits(b))];
    forall j | 0 <= j < |t| ensures ShowsAt(d', j, t'[j]) {
      assert ShowsAt(d, j, t[j]);
    }
  }

  /** A write to a replica changes its bytes only. */
  lemma WroteShows(d: InodeSpec.Disk, d': InodeSpec.Disk, t: Files, c: nat, off: nat, b: seq<InodeSpec.Byte>)
    requires Shows(d, t) && c < |t| && t[c].kind == Ditto && InodeFs.Wrote(d, d', c, off, b)
    requires InodeSpec.WriteAllowed(t[c].size, off, |b|)
    ensures Shows(d', t[c := Spliced(t[c], off, AllBits(b))])
  {
    assert ShowsAt(d, c, t[c]);
    if b == [] {
      InodeFs.SpliceNone(InodeSpec.Image(d, c), off);
    }
    assert InodeFs.Put(d, d', c, off, b);
    PutShows(d, d', t, c, off, b);
  }

  lemma SizeShows(d: InodeSpec.Disk, d': InodeSpec.Disk, t: Files, i: nat, size: nat)
    requires Shows(d, t) && i < |t| && InodeSpec.SameImages(d, d')
    requires d'.inodes == d.inodes[i := d.inodes[i].(size := size)]
    ensures Shows(d', t[i := t[i].(size := size)])
  {
    var t' := t[i := t[i].(size := size)];
    forall j | 0 <= j < |t| ensures ShowsAt(d', j, t'[j]) {
      assert ShowsAt(d, j, t[j]);
    }
  }

  // ---------------------------------------------------------------- the write

  /** The same bytes to one child, if there is one. */
  method WriteChild(fs: InodeFs.FileSystem, ghost t: Files, c: nat, off: Word, src: seq<InodeSpec.Byte>)
    returns (ok: bool)
    requires fs.Valid() && Shows(fs.D(), t) && |src| < 0x1_0000_0000
    requires c != NONE ==> c < |t| && t[c].kind == Ditto && Formed(t[c])
    modifies fs
    ensures fs.Valid() && |fs.inodes| == |t|
    ensures ok ==> Shows(fs.D(), if c == NONE then t else t[c := ChildTakes(t[c], off, AllBits(src))])
    ensures !ok ==> forall a :: 0 <= a < |fs.used| ==> fs.used[a]
  {
    if c == NONE {
      return true;
    }
    ghost var d := fs.D();
    assert ShowsAt(d, c, t[c]);
    var w := fs.Writei(c, off, src);
    if w.Done? {
      WroteShows(d, fs.D(), t, c, off, src);
    }
    return !w.Panic?;
  }

  /** ip->size = size, here or in a child. */
  method SetSize(fs: InodeFs.FileSystem, ghost t: Files, i: nat, size: nat)
    requires fs.Valid() && Shows(fs.D(), t) && i < |t| && size <= InodeSpec.MAXBYTES
    modifies fs
    ensures fs.Valid() && Shows(fs.D(), t[i := t[i].(size := size)])
  {
    ghost var d := fs.D();
    InodeFs.SizeOnly(d, fs.owner, i, size);
    fs.inodes := fs.inodes[i := fs.inodes[i].(size := size)];
    SizeShows(d, fs.D(), t, i, size);
  }

  /** Inode c after the bytes and the size: as Written has it, but for the checksum. */
  ghost function Followed(t: Files, p: nat, c: nat, off: nat, b: seq<Checksum.Byte>): Inode
    requires Tree(t) && p < |t| && c < |t| && InodeSpec.WriteAllowed(t[p].size, off, |b|)
  {
    var size := Grown(t[p].size, off, |b|);
    if c == p then Spliced(t[p], off, b).(size := size)
    else if IsChild(t[p], c) then ChildTakes(t[c], off, b).(size := size)
    else t[c]
  }

  lemma FollowedShows(d: InodeSpec.Disk, t: Files, t': Files, p: nat, off: nat, b: seq<Checksum.Byte>)
    requires Tree(t) && p < |t| && InodeSpec.WriteAllowed(t[p].size, off, |b|) && Shows(d, t') && |t'| == |t|
    requires forall j :: 0 <= j < |t| ==> t'[j] == Followed(t, p, j, off, b)
    ensures Shows(d, Written(t, p, off, b))
  {
    var w := Written(t, p, off, b);
    forall j | 0 <= j < |t| ensures ShowsAt(d, j, w[j]) {
      assert ShowsAt(d, j, t'[j]) && w[j] == WrittenAt(t, p, off, b, j);
    }
  }

  /** Every file q that was in step has replicas with its content after a write to p. */
  lemma SameAfterWrite(d: InodeSpec.Disk, t: Files, p: nat, off: nat, b: seq<Checksum.Byte>, q: nat, c: nat)
    requires Tree(t) && p < |t| && t[p].kind == Regular && InodeSpec.WriteAllowed(t[p].size, off, |b|)
    requires Shows(d, Written(t, p, off, b))
    requires q < |t| && t[q].kind == Regular && Synced(t, q) && IsChild(t[q], c)
    ensures SameContent(d, q, c)
  {
    WriteKeepsReplicas(t, p, off, b, q);
    SameOnDisk(d, Written(t, p, off, b), q, c);
  }

  /**
    The write: bytes to the file, the same bytes to its children, then the size, which the children get too. The disk
    then holds the files as Replica has them after the write, so every file that was in step with its replicas has
    the same content as they. Panics only when the disk is full.
   */
  method WriteFollowed(fs: InodeFs.FileSystem, ghost t: Files, p: nat, child1: nat, child2: nat, off: Word,
                       src: seq<InodeSpec.Byte>)
    returns (r: Outcome<nat>)
    requires fs.Valid() && Tree(t) && Shows(fs.D(), t) && |src| < 0x1_0000_0000
    requires p < |t| && t[p].kind == Regular && child1 == t[p].child1 && child2 == t[p].child2
    modifies fs
    ensures fs.Valid() && |fs.inodes| == |t|
    ensures r.Error? <==> off > t[p].size || off + |src| >= 0x1_0000_0000 || off + |src| > 70656
    ensures r.Error? ==> fs.D() == old(fs.D())
    ensures r.Panic? ==> forall a :: 0 <= a < |fs.used| ==> fs.used[a]
    ensures r.Done? ==> r.value == |src| && Shows(fs.D(), Written(t, p, off, AllBits(src)))
    ensures r.Done? ==> forall q, c :: 0 <= q < |t| && t[q].kind == Regular && Synced(t, q) && IsChild(t[q], c) ==>
      SameContent(fs.D(), q, c)
  {
    assert ShowsAt(fs.D(), p, t[p]);
    if off > fs.inodes[p].size || (off + |src|) % 0x1_0000_0000 < off {
      return Error;
    }
    if off + |src| > InodeSpec.MAXBYTES {
      return Error;
    }
    var ok, t' := WriteBytes(fs, t, p, child1, child2, off, src);
    if !ok {
      return Panic;
    }
    HandSizes(fs, t, t', p, child1, child2, off, src);
    forall q, c | 0 <= q < |t| && t[q].kind == Regular && Synced(t, q) && IsChild(t[q], c)
      ensures SameContent(fs.D(), q, c)
    {
      SameAfterWrite(fs.D(), t, p, off, AllBits(src), q, c);
    }
    return Done(|src|);
  }

  /** The bytes go to the file, then to its children. */
  method WriteBytes(fs: InodeFs.FileSystem, ghost t: Files, p: nat, child1: nat, child2: nat, off: Word,
                    src: seq<InodeSpec.Byte>)
    returns (ok: bool, ghost t': Files)
    requires fs.Valid() && Tree(t) && Shows(fs.D(), t)
    requires p < |t| && t[p].kind == Regular && child1 == t[p].child1 && child2 == t[p].child2
    requires InodeSpec.WriteAllowed(t[p].size, off, |src|)
    modifies fs
    ensures fs.Valid() && |fs.inodes| == |t|
    ensures !ok ==> forall a :: 0 <= a < |fs.used| ==> fs.used[a]
    ensures ok ==> BytesWritten(t, t', p, off, AllBits(src), false) && Shows(fs.D(), t')
  {
    assert ChildOk(t, p, p) && ChildOk(t, p, child1) && ChildOk(t, p, child2);
    ghost var d := fs.D();
    var w := fs.CopyIn(p, off, src);
    if w.Panic? {
      return false, t;
    }
    PutShows(d, fs.D(), t, p, off, src);
    t' := t[p := Spliced(t[p], off, AllBits(src))];
    ok := WriteChild(fs, t', child1, off, src);
    if ok {
      t' := if child1 == NONE then t' else t'[child1 := ChildTakes(t'[child1], off, AllBits(src))];
      ok := WriteChild(fs, t', child2, off, src);
      t' := if child2 == NONE then t' else t'[child2 := ChildTakes(t'[child2], off, AllBits(src))];
    }
  }

  /** The size, if it grew, and the same size for the children. */
  method HandSizes(fs: InodeFs.FileSystem, ghost t: Files, ghost t1: Files, p: nat, child1: nat, child2: nat,
                   off: Word, src: seq<InodeSpec.Byte>)
    requires fs.Valid() && Tree(t) && Shows(fs.D(), t1)
    requires p < |t| && t[p].kind == Regular && child1 == t[p].child1 && child2 == t[p].child2
    requires InodeSpec.WriteAllowed(t[p].size, off, |src|) && BytesWritten(t, t1, p, off, AllBits(src), false)
    modifies fs
    ensures fs.Valid() && Shows(fs.D(), Written(t, p, off, AllBits(src)))
  {
    assert ChildOk(t, p, p) && ChildOk(t, p, child1) && ChildOk(t, p, child2);
    assert ShowsAt(fs.D(), p, t1[p]);
    ghost var t' := t1;
    var size := fs.inodes[p].size;
    if |src| > 0 && off + |src| > size {
      size := off + |src|;
      SetSize(fs, t', p, size);
      t' := t'[p := t'[p].(size := size)];
    }
    if child1 != NONE {
      SetSize(fs, t', child1, size);
      t' := t'[child1 := t'[child1].(size := size)];
    }
    if child2 != NONE {
      SetSize(fs, t', child2, size);
      t' := t'[child2 := t'[child2].(size := size)];
    }
    FollowedShows(fs.D(), t, t', p, off, AllBits(src));
  }
}
