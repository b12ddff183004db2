/**
  The code that keeps replicas (xv6/fs.c, xv6/sysfile.c), in place on the inode table, proved against
  Replica: the write that follows the children, duplication, propagation in log-sized chunks, rescue, and
  the locking that verifies a checksum and falls back on a replica.
 */
module ReplicaFs {
  import opened Basics
  import InodeSpec
  import opened Checksum
  import opened Replica

  const BSIZE := 512
  // bytes per transaction of ipropagate: ((LOGSIZE - 1 - 1 - 2) / 2) * 512
  const PROPAGATE := 6656
  // bytes per transaction of irescue: ((LOGSIZE - 1 - 1 - 2) / 4) * 512
  const RESCUE := 3072

  class Store {
    var files: Files

    /** Stores the checksum of the content, then hands size and checksum to the children. */
    method Iupdate(i: nat, skip: bool) returns (r: Outcome<()>)
      requires Tree(files) && i < |files|
      modifies `files
      ensures r == Done(()) && Tree(files) && |files| == |old(files)|
      ensures forall j :: 0 <= j < |files| ==> files[j] == Updated(old(files), i, skip, j)
    {
      ghost var t := files;
      var sum := Ichecksum(Content(files[i]));
      files := files[i := files[i].(sum := sum)];
      TreeKept(t, files);
      if !skip {
        if files[i].child1 != NONE {
          r := Cupdate(i, files[i].child1);
        }
        if files[i].child2 != NONE {
          r := Cupdate(i, files[i].child2);
        }
      }
      return Done(());
    }

    /** A child takes size and checksum from its parent; panics when it is not a replica. */
    method Cupdate(p: nat, c: nat) returns (r: Outcome<()>)
      requires Tree(files) && p < |files| && IsChild(files[p], c)
      modifies `files
      ensures r == Done(()) && Tree(files) && c < |old(files)|
      ensures files == old(files)[c := old(files)[c].(size := old(files)[p].size, sum := old(files)[p].sum)]
    {
      assert ChildOk(files, p, c);
      if files[c].kind != Ditto {
        return Panic;
      }
      ghost var t := files;
      files := files[c := files[c].(size := files[p].size, sum := files[p].sum)];
      TreeKept(t, files);
      return Done(());
    }

    /**
      Writes a file and, unless told to skip them, its children. A replica takes the bytes only: size and
      checksum come from its parent.
     */
    method WriteiExt(i: nat, off: nat, src: seq<Byte>, skip: bool) returns (r: Outcome<nat>)
      requires Tree(files) && i < |files| && off < 0x1_0000_0000 && |src| < 0x1_0000_0000 && files[i].kind != Unused
      modifies `files
      ensures Tree(files) && !r.Panic?
      ensures r.Error? <==> off > old(files)[i].size || off + |src| >= 0x1_0000_0000 || off + |src| > 70656
      ensures r.Error? ==> files == old(files)
      ensures r.Done? ==> r.value == |src| && files == WriteResult(old(files), i, off, src, skip)
      decreases if files[i].child1 == NONE && files[i].child2 == NONE then 0 else 1, 1
    {
      if off > files[i].size || (off + |src|) % 0x1_0000_0000 < off {
        return Error;
      }
      if off + |src| > 70656 {
        return Error;
      }
      ghost var t := files;
      files := files[i := files[i].(image := InodeSpec.Splice(files[i].image, off, src))];
      TreeKept(t, files);
      if !skip {
        WriteChildren(t, i, off, src);
      }
      if files[i].kind == Ditto {
        return Done(|src|);
      }
      ghost var t3 := files;
      Settle(i, off, |src|, skip);
      Settled(t, t3, files, i, off, src, skip);
      return Done(|src|);
    }

    /** The same write to the children. */
    method WriteChildren(ghost t: Files, i: nat, off: nat, src: seq<Byte>)
      requires Tree(files) && i < |files| && off < 0x1_0000_0000 && |src| < 0x1_0000_0000
      requires Tree(t) && |t| == |files| && t[i].kind != Unused && InodeSpec.WriteAllowed(t[i].size, off, |src|)
      requires files == t[i := t[i].(image := InodeSpec.Splice(t[i].image, off, src))]
      modifies `files
      ensures Tree(files) && BytesWritten(t, files, i, off, src, false)
      decreases if files[i].child1 == NONE && files[i].child2 == NONE then 0 else 1, 0
    {
      assert ChildOk(files, i, files[i].child1) && ChildOk(files, i, files[i].child2);
      if files[i].child1 != NONE {
        var w := WriteiExt(files[i].child1, off, src, false);
      }
      if files[i].child2 != NONE {
        var w := WriteiExt(files[i].child2, off, src, false);
      }
    }

    /** The size, if it grew, and the checksum. */
    method Settle(i: nat, off: nat, n: nat, skip: bool)
      requires Tree(files) && i < |files| && off + n <= 70656
      modifies `files
      ensures Tree(files) && |files| == |old(files)|
      ensures forall j :: 0 <= j < |files| ==>
        files[j] == Updated(old(files)[i := old(files)[i].(size := Grown(old(files)[i].size, off, n))], i, skip, j)
    {
      ghost var t := files;
      if n > 0 && off + n > files[i].size {
        files := files[i := files[i].(size := off + n)];
      }
      TreeKept(t, files);
      assert files == t[i := t[i].(size := Grown(t[i].size, off, n))];
      var u := Iupdate(i, skip);
    }

    /**
      Copies `tot` bytes from `off` on, in blocks of 512, with the size and checksum of the source. Past the end
      of the source `readi` fails, and its -1, taken for a count, only moves the offset back to the end.
     */
    method Iduplicate(src: nat, dst: nat, off: nat, tot: nat)
      requires Tree(files) && src < |files| && dst < |files| && src != dst && files[dst].kind != Unused
      requires off < 0x1_0000_0000 && tot < 0x1_0000_0000
      modifies `files
      ensures Tree(files) && files == old(files)[dst := CopyOf(old(files)[src], old(files)[dst], off, tot)]
    {
      ghost var t := files;
      files := files[dst := files[dst].(sum := files[src].sum, size := files[src].size)];
      TreeKept(t, files);
      var at: nat, size, limit := off, files[src].size, (tot + off) % 0x1_0000_0000;
      ghost var n := 0;
      TakenNone(t[src], t[dst], Min(off, size));
      while at != size && at < limit
        invariant size == t[src].size && Copying(t, files, src, dst, off, limit, at, n)
        decreases if at > size then at - size else size - at
      {
        CopyAtNext(size, off, limit, at, n);
        if at > size {
          at := (at + 0xFFFF_FFFF) % 0x1_0000_0000;
        } else {
          at := CopyNext(t, src, dst, off, limit, at, n);
          n := n + 1;
        }
      }
      CopyEnds(size, off, tot, at, n);
    }

    /** One round inside the source. */
    method CopyNext(ghost t: Files, src: nat, dst: nat, ghost off: nat, ghost limit: nat, at: nat, ghost n: nat)
      returns (at': nat)
      requires Copying(t, files, src, dst, off, limit, at, n) && at < t[src].size && at < limit
      modifies `files
      ensures Copying(t, files, src, dst, off, limit, at', n + 1) && at < at' <= t[src].size
    {
      CopyAtNext(t[src].size, off, limit, at, n);
      TakenMore(t[src], t[dst], off, at, at + Min(t[src].size - at, 512));
      var r := CopyBlock(src, dst, at);
      at' := at + r;
    }

    /** One round: up to 512 bytes at `at`. */
    method CopyBlock(src: nat, dst: nat, at: nat) returns (r: nat)
      requires Tree(files) && src < |files| && dst < |files| && src != dst && files[dst].kind != Unused
      requires at < files[src].size == files[dst].size
      modifies `files
      ensures Tree(files) && r == Min(old(files)[src].size - at, 512)
      ensures files == old(files)[dst := BlockWritten(old(files)[dst], at, old(files)[src].image[at..at + r])]
    {
      r := Min(files[src].size - at, BSIZE);
      var w := WriteiExt(dst, at, files[src].image[at..at + r], true);
    }

    /** Copies a file to its children, one chunk per transaction and child. */
    method Ipropagate(i: nat)
      requires Tree(files) && i < |files|
      modifies `files
      ensures Tree(files) && |files| == |old(files)|
      ensures forall j :: 0 <= j < |files| && !IsChild(old(files)[i], j) ==> files[j] == old(files)[j]
      ensures forall c :: 0 <= c < |files| && IsChild(old(files)[i], c) ==>
        Follows(old(files)[i], old(files)[c], files[c], old(files)[i].size)
    {
      ghost var t := files;
      var k, n := 0, files[i].size;
      while k < n
        invariant 0 <= k <= n == t[i].size && Tree(files) && |files| == |t|
        invariant forall j :: 0 <= j < |t| && !IsChild(t[i], j) ==> files[j] == t[j]
        invariant forall c :: 0 <= c < |t| && IsChild(t[i], c) ==> Follows(t[i], t[c], files[c], k)
        invariant files[i] == t[i]
      {
        var n1 := if n - k > PROPAGATE then PROPAGATE else n - k;
        assert ChildOk(t, i, t[i].child1) && ChildOk(t, i, t[i].child2);
        if files[i].child1 != NONE {
          FollowChunk(t, i, files[i].child1, k, n1);
        }
        if files[i].child2 != NONE {
          FollowChunk(t, i, files[i].child2, k, n1);
        }
        k := k + n1;
      }
    }

    /** One chunk for one child. */
    method FollowChunk(ghost t: Files, i: nat, c: nat, k: nat, n1: nat)
      requires Tree(files) && |files| == |t| && i < |files| && c < |files| && c != i && files[c].kind == Ditto
      requires files[i] == t[i] && 0 < n1 && k + n1 <= t[i].size <= 70656 && Follows(t[i], t[c], files[c], k)
      modifies `files
      ensures Tree(files) && |files| == |t| && files == old(files)[c := files[c]]
      ensures Follows(t[i], t[c], files[c], k + n1)
    {
      ghost var d := files[c];
      Iduplicate(i, c, k, n1);
      FollowsNext(t[i], t[c], d, files[c], k, n1);
    }

    /** The first free inode, made an empty replica. */
    method Ialloc() returns (r: Outcome<nat>)
      requires Tree(files)
      modifies `files
      ensures Tree(files) && |files| == |old(files)| && !r.Error?
      ensures r.Panic? <==> forall j :: 1 <= j < |old(files)| ==> old(files)[j].kind != Unused
      ensures r.Panic? ==> files == old(files)
      ensures r.Done? ==> 1 <= r.value < |files| && old(files)[r.value].kind == Unused
      ensures r.Done? ==> forall j :: 1 <= j < r.value ==> old(files)[j].kind != Unused
      ensures r.Done? ==> files == old(files)[r.value := EmptyDitto()]
      ensures r.Done? ==> files[r.value].kind == Ditto && files[r.value].size == 0 && files[r.value].sum == ZeroWord()
      ensures r.Done? ==> files[r.value].child1 == files[r.value].child2 == 0
      ensures r.Done? ==> forall p :: 0 <= p < 70656 ==> files[r.value].image[p] == ZeroByte()
    {
      var c := 1;
      while c < |files|
        invariant 1 <= c && files == old(files)
        invariant forall j :: 1 <= j < c && j < |files| ==> files[j].kind != Unused
      {
        if files[c].kind == Unused {
          AllocKeepsTree(files, c);
          files := files[c := EmptyDitto()];
          return Done(c);
        }
        c := c + 1;
      }
      return Panic;
    }

    /** A new replica for file i; where it goes is the caller's business. */
    method NewChild(i: nat, first: bool) returns (r: Outcome<()>)
      requires Tree(files) && 1 <= i < |files| && files[i].kind == Regular
      requires if first then files[i].child1 == NONE else files[i].child2 == NONE
      modifies `files
      ensures Tree(files) && |files| == |old(files)| && !r.Error?
      ensures r.Panic? ==> files == old(files) && forall j :: 1 <= j < |files| ==> files[j].kind != Unused
      ensures Within(old(files), files, i)
      ensures r.Done? ==> exists c :: 1 <= c < |files| && ChildAdded(old(files), files, i, c, first)
    {
      ghost var t := files;
      assert ChildOk(t, i, t[i].child1) && ChildOk(t, i, t[i].child2);
      var c := Ialloc();
      if !c.Done? {
        return Panic;
      }
      AdoptKeepsTree(t, files, i, c.value, first);
      if first {
        files := files[i := files[i].(child1 := c.value)];
      } else {
        files := files[i := files[i].(child2 := c.value)];
      }
      assert ChildAdded(t, files, i, c.value, first);
      return Done(());
    }

    /**
      Gives a file the replicas asked for, and puts it and all its replicas in step; files in step stay so. Gives
      up where the file has such a replica already.
     */
    method Duplicate(i: nat, nditto: nat) returns (r: Outcome<()>)
      requires Tree(files) && 1 <= i < |files| && files[i].kind == Regular
      modifies `files
      ensures Tree(files) && |files| == |old(files)|
      ensures r.Done? ==> Synced(files, i)
      ensures forall q :: 0 <= q < |files| && q != i && old(files)[q].kind == Regular && Synced(old(files), q) ==>
        files[q] == old(files)[q] && Synced(files, q)
      ensures files[i].size == old(files)[i].size && files[i].image == old(files)[i].image
      ensures r.Done? ==> (files[i].child1 != NONE <==> nditto > 0 || old(files)[i].child1 != NONE)
      ensures r.Done? ==> (files[i].child2 != NONE <==> nditto > 1 || old(files)[i].child2 != NONE)
      ensures r.Done? ==> !(nditto > 0 && old(files)[i].child1 != NONE) && !(nditto > 1 && old(files)[i].child2 != NONE)
      ensures nditto > 0 && old(files)[i].child1 != NONE ==> r.Error? && files == old(files)
      ensures forall j :: 0 <= j < |files| && FirstThenSecond(old(files)[j]) ==> FirstThenSecond(files[j])
      ensures r.Error? ==> nditto > 0 && (old(files)[i].child1 != NONE || (nditto > 1 && old(files)[i].child2 != NONE))
      ensures r.Panic? ==> nditto > 0 && forall j :: 1 <= j < |files| ==> files[j].kind != Unused
    {
      ghost var t := files;
      if nditto > 0 {
        if files[i].child1 != NONE {
          return Error;
        }
        r := NewChild(i, true);
        if r.Panic? {
          return;
        }
        OthersKept(t, files, i);
        OrderKept(t, files, i);
      }
      ghost var t1 := files;
      if nditto > 1 {
        if files[i].child2 != NONE {
          return Error;
        }
        r := NewChild(i, false);
        if r.Panic? {
          return;
        }
        OthersKept(t1, files, i);
        OrderKept(t1, files, i);
      }
      ghost var t2 := files;
      assert ChildOk(t2, i, i);
      Ipropagate(i);
      ghost var t3 := files;
      var u := Iupdate(i, false);
      DuplicateSyncs(t2, t3, files, i);
      OrderKept(t2, files, i);
      return Done(());
    }
  }

  function EmptyDitto(): Inode {
    Inode(Ditto, seq(70656, _ => ZeroByte()), 0, NONE, NONE, ZeroWord())
  }

  lemma AllocKeepsTree(t: Files, c: nat)
    requires Tree(t) && 1 <= c < |t| && t[c].kind == Unused
    ensures Tree(t[c := EmptyDitto()])
  {
    var t' := t[c := EmptyDitto()];
    forall p, d | 0 <= p < |t| && 0 <= d ensures ChildOk(t', p, d) {
      assert ChildOk(t, p, d);
    }
  }

  /** t' is t with the unused inode c made an empty replica and a child of i. */
  ghost predicate ChildAdded(t: Files, t': Files, i: nat, c: nat, first: bool) {
    && i < |t| && c < |t| && t[c].kind == Unused && i != c
    && t' == t[c := EmptyDitto()][i := if first then t[i].(child1 := c) else t[i].(child2 := c)]
  }

  /** A replica just allocated becomes a child. */
  lemma AdoptKeepsTree(t: Files, t1: Files, i: nat, c: nat, first: bool)
    requires Tree(t) && Tree(t1) && 1 <= i < |t| && 1 <= c < |t| && t[c].kind == Unused && t1 == t[c := EmptyDitto()]
    requires t[i].kind == Regular && (if first then t[i].child1 == NONE else t[i].child2 == NONE)
    ensures Tree(if first then t1[i := t1[i].(child1 := c)] else t1[i := t1[i].(child2 := c)])
  {
    var t' := if first then t1[i := t1[i].(child1 := c)] else t1[i := t1[i].(child2 := c)];
    forall q | 0 <= q < |t| ensures !IsChild(t[q], c) {
      assert ChildOk(t, q, c);
    }
    forall p, d | 0 <= p < |t| && 0 <= d ensures ChildOk(t', p, d) {
      assert ChildOk(t1, p, d);
    }
  }

  /** t' differs from t in i and its replicas only, which are not other files. */
  ghost predicate Within(t: Files, t': Files, i: nat) {
    && i < |t| == |t'|
    && (forall j :: 0 <= j < |t| && j != i && !IsChild(t'[i], j) ==> t'[j] == t[j])
    && (forall j :: 0 <= j < |t| && IsChild(t'[i], j) ==> t[j].kind != Regular)
  }

  /** Changes to i and its replicas leave other files, and whether they are in step, alone. */
  lemma OthersKept(t: Files, t': Files, i: nat)
    requires Tree(t) && Tree(t') && Within(t, t', i) && t'[i].kind == Regular
    ensures forall q :: 0 <= q < |t| && q != i && t[q].kind == Regular && Synced(t, q) ==>
      t'[q] == t[q] && Synced(t', q)
  {
    forall q | 0 <= q < |t| && q != i && t[q].kind == Regular && Synced(t, q) ensures t'[q] == t[q] && Synced(t', q) {
      OtherKept(t, t', i, q);
    }
  }

  /** And no inode has a second child without a first that did not before. */
  lemma OrderKept(t: Files, t': Files, i: nat)
    requires Tree(t') && Within(t, t', i) && (FirstThenSecond(t[i]) ==> FirstThenSecond(t'[i]))
    ensures forall j :: 0 <= j < |t| && FirstThenSecond(t[j]) ==> FirstThenSecond(t'[j])
  {
    forall j | 0 <= j < |t| && FirstThenSecond(t[j]) ensures FirstThenSecond(t'[j]) {
      assert ChildOk(t', i, j);
    }
  }

  lemma OtherKept(t: Files, t': Files, i: nat, q: nat)
    requires Tree(t) && Tree(t') && Within(t, t', i) && t'[i].kind == Regular
    requires q < |t| && q != i && t[q].kind == Regular && Synced(t, q)
    ensures t'[q] == t[q] && Synced(t', q)
  {
    forall c | 0 <= c < |t| && IsChild(t'[q], c) ensures Agrees(t', q, c) {
      assert Agrees(t, q, c) && ChildOk(t', i, c) && ChildOk(t', q, c);
    }
  }

  /** Replica d', once d, holds the first k bytes of s and, once k > 0, its size and checksum. */
  ghost predicate Follows(s: Inode, d: Inode, d': Inode, k: nat) {
    && Formed(s) && Formed(d') && k <= s.size
    && d'.kind == d.kind && d'.child1 == d.child1 && d'.child2 == d.child2
    && d'.image[..k] == s.image[..k]
  }

  lemma FollowsNext(s: Inode, d: Inode, d1: Inode, d2: Inode, k: nat, n1: nat)
    requires Follows(s, d, d1, k) && k + n1 <= s.size && Formed(d1) && d2 == CopyOf(s, d1, k, n1)
    ensures Follows(s, d, d2, k + n1)
  {
    forall p | 0 <= p < k + n1 ensures d2.image[p] == s.image[p] {
      assert p < k ==> d1.image[..k][p] == s.image[..k][p];
    }
  }

  /** Propagated content, then size and checksum: the file and its replicas are in step. */
  lemma DuplicateSyncs(t2: Files, t3: Files, t4: Files, i: nat)
    requires Tree(t2) && Tree(t4) && i < |t2| == |t3| == |t4| && t2[i].kind == Regular && t3[i] == t2[i]
    requires forall j :: 0 <= j < |t2| && !IsChild(t2[i], j) ==> t3[j] == t2[j]
    requires forall c :: 0 <= c < |t2| && IsChild(t2[i], c) ==> Follows(t2[i], t2[c], t3[c], t2[i].size)
    requires forall j :: 0 <= j < |t2| ==> t4[j] == Updated(t3, i, false, j)
    ensures Synced(t4, i) && Within(t2, t4, i)
    ensures forall q :: 0 <= q < |t2| && q != i && t2[q].kind == Regular && Synced(t2, q) ==>
      t4[q] == t2[q] && Synced(t4, q)
  {
    assert ChildOk(t2, i, i);
    forall c | 0 <= c < |t2| && IsChild(t4[i], c) ensures t2[c].kind != Regular {
      assert ChildOk(t2, i, c);
    }
    OthersKept(t2, t4, i);
  }

  /** n rounded up to a multiple of 512. */
  function RoundUp(n: nat): (r: nat)
    ensures n <= r < n + 512
  {
    if n == 0 then 0 else if n <= 512 then 512 else 512 + RoundUp(n - 512)
  }

  lemma {:induction false} RoundUpIs(n: nat)
    ensures RoundUp(n) == (n + 511) / 512 * 512
  {
    if n > 512 {
      RoundUpIs(n - 512);
      assert (n + 511) / 512 == (n - 512 + 511) / 512 + 1;
    }
  }

  lemma {:induction false} BlocksThen(blocks: nat, n: nat)
    ensures RoundUp(512 * blocks + n) == 512 * blocks + RoundUp(n)
  {
    if blocks > 0 {
      BlocksThen(blocks - 1, n);
    }
  }

  /** Where copying `tot` bytes from `off` on, in blocks of 512, ends; an end that wraps in 32 bits copies nothing. */
  function CopyEnd(size: nat, off: nat, tot: nat): nat {
    if off + tot >= 0x1_0000_0000 then Min(size, off) else Min(size, off + RoundUp(tot))
  }

  /**
    Inode d with the size of s and its bytes from `from` to `to`; with the checksum of s, unless it is a file that
    took bytes and so has the checksum of its content.
   */
  ghost function Taken(s: Inode, d: Inode, from: nat, to: nat): (r: Inode)
    requires Formed(s) && Formed(d) && from <= to <= s.size
    ensures Formed(r)
  {
    var image := InodeSpec.Splice(d.image, from, s.image[from..to]);
    d.(image := image, size := s.size, sum := if d.kind == Regular && to > from then Sum(image[..s.size]) else s.sum)
  }

  /** iduplicate of `tot` bytes from `off` on, from s to d. */
  ghost function CopyOf(s: Inode, d: Inode, off: nat, tot: nat): (r: Inode)
    requires Formed(s) && Formed(d)
    ensures Formed(r)
  {
    Taken(s, d, Min(off, s.size), CopyEnd(s.size, off, tot))
  }

  /**
    What iduplicate copies, byte by byte: those of the source from `off` up to the end of the last block of 512 of the
    `tot` bytes asked for, unless their end wraps in 32 bits. The size is the source's, and so is the
    checksum, unless a file took bytes and has that of its content.
   */
  lemma CopyOfBytes(s: Inode, d: Inode, off: nat, tot: nat, p: nat)
    requires Formed(s) && Formed(d) && p < 70656
    ensures var r := CopyOf(s, d, off, tot);
      var wraps := off + tot >= 0x1_0000_0000;
      && r.size == s.size && r.kind == d.kind && r.child1 == d.child1 && r.child2 == d.child2
      && r.image[p] == (if !wraps && off <= p < s.size && p < off + (tot + 511) / 512 * 512 then s.image[p]
                        else d.image[p])
      && r.sum == if d.kind == Regular && !wraps && off < s.size && tot > 0 then Sum(r.image[..r.size]) else s.sum
  {
    RoundUpIs(tot);
  }

  /** Inode d after a write of its own bytes, without children. */
  ghost function BlockWritten(d: Inode, at: nat, b: seq<Byte>): (r: Inode)
    requires Formed(d) && InodeSpec.WriteAllowed(d.size, at, |b|)
    ensures Formed(r)
  {
    if d.kind == Regular then WrittenInode(d, at, b) else Spliced(d, at, b)
  }

  lemma SpliceNone(x: seq<Byte>, at: nat)
    requires at <= |x|
    ensures InodeSpec.Splice(x, at, []) == x
  {
  }

  lemma SpliceTwice(x: seq<Byte>, at: nat, a: seq<Byte>, b: seq<Byte>)
    requires at + |a| + |b| <= |x|
    ensures InodeSpec.Splice(InodeSpec.Splice(x, at, a), at + |a|, b) == InodeSpec.Splice(x, at, a + b)
  {
  }

  lemma TakenNone(s: Inode, d: Inode, at: nat)
    requires Formed(s) && Formed(d) && at <= s.size
    ensures Taken(s, d, at, at) == d.(size := s.size, sum := s.sum)
  {
    assert s.image[at..at] == [];
    SpliceNone(d.image, at);
  }

  /** One more block. */
  lemma TakenMore(s: Inode, d: Inode, from: nat, at: nat, at': nat)
    requires Formed(s) && Formed(d) && from <= at < at' <= s.size
    ensures BlockWritten(Taken(s, d, from, at), at, s.image[at..at']) == Taken(s, d, from, at')
  {
    assert s.image[from..at] + s.image[at..at'] == s.image[from..at'];
    SpliceTwice(d.image, from, s.image[from..at], s.image[at..at']);
  }

  /** The copy loop after n blocks; past the end of the source it has copied none. */
  ghost predicate CopyAt(size: nat, off: nat, limit: nat, at: nat, n: nat) {
    && off < 0x1_0000_0000 && size <= 70656
    && if off > size then size <= at <= off && n == 0
       else off <= at && at == Min(size, off + 512 * n) && (n > 0 ==> off + 512 * (n - 1) < limit)
  }

  /** The files while iduplicate of t[src] to t[dst] is at byte `at`, after n blocks. */
  ghost predicate Copying(t: Files, t': Files, src: nat, dst: nat, off: nat, limit: nat, at: nat, n: nat) {
    && src < |t| == |t'| && dst < |t| && src != dst && Formed(t[src]) && Formed(t[dst]) && t[dst].kind != Unused
    && Tree(t') && CopyAt(t[src].size, off, limit, at, n)
    && t' == t[dst := Taken(t[src], t[dst], Min(off, t[src].size), Min(at, t[src].size))]
  }

  lemma CopyAtNext(size: nat, off: nat, limit: nat, at: nat, n: nat)
    requires CopyAt(size, off, limit, at, n) && at != size && at < limit
    ensures at > size ==> (at + 0xFFFF_FFFF) % 0x1_0000_0000 == at - 1 && CopyAt(size, off, limit, at - 1, n)
    ensures at < size ==> off <= at && CopyAt(size, off, limit, at + Min(size - at, 512), n + 1)
  {
  }

  lemma CopyEnds(size: nat, off: nat, tot: nat, at: nat, n: nat)
    requires tot < 0x1_0000_0000 && CopyAt(size, off, (tot + off) % 0x1_0000_0000, at, n)
    requires at == size || at >= (tot + off) % 0x1_0000_0000
    ensures Min(at, size) == CopyEnd(size, off, tot)
  {
    if off <= size && off + tot < 0x1_0000_0000 {
      if n > 0 && tot <= 512 * n {
        BlocksThen(n - 1, tot - 512 * (n - 1));
      }
    }
  }

  /** Slot j after iupdate of i. */
  ghost function Updated(t: Files, i: nat, skip: bool, j: nat): Inode
    requires i < |t| && j < |t| && t[i].size <= |t[i].image|
  {
    if j == i then t[i].(sum := Sum(Content(t[i])))
    else if !skip && IsChild(t[i], j) then t[j].(size := t[i].size, sum := Sum(Content(t[i])))
    else t[j]
  }

  /** The bytes are in place, in file i and, unless skipped, as far as they go in its children. */
  ghost predicate BytesWritten(t: Files, t': Files, i: nat, off: nat, b: seq<Byte>, skip: bool)
    requires Tree(t) && i < |t| && off + |b| <= 70656
  {
    && |t'| == |t| && t'[i] == Spliced(t[i], off, b)
    && (forall j :: 0 <= j < |t| && j != i ==>
      t'[j] == if !skip && IsChild(t[i], j) then ChildTakes(t[j], off, b) else t[j])
  }

  /** Bytes in place, then size and checksums: the write is complete. */
  lemma Settled(t: Files, t3: Files, t4: Files, i: nat, off: nat, b: seq<Byte>, skip: bool)
    requires Tree(t) && i < |t| == |t3| == |t4| && t[i].kind == Regular && InodeSpec.WriteAllowed(t[i].size, off, |b|)
    requires BytesWritten(t, t3, i, off, b, skip)
    requires forall j :: 0 <= j < |t| ==>
      t4[j] == Updated(t3[i := t3[i].(size := Grown(t3[i].size, off, |b|))], i, skip, j)
    ensures t4 == WriteResult(t, i, off, b, skip)
  {
    if !skip {
      forall j | 0 <= j < |t| ensures t4[j] == WrittenAt(t, i, off, b, j) {
      }
    }
  }

  /**
    A write, inode by inode: the bytes appear at their offset; a file that grew ends after them and has the checksum of
    its content, and a replica written by itself keeps size and checksum. Replicas of the file get its size and
    checksum, and the bytes if these start within the replica; with skip they and, in any case, all others stay as
    they were.
   */
  lemma WriteResultIs(t: Files, i: nat, off: nat, b: seq<Byte>, skip: bool, j: nat)
    requires Tree(t) && i < |t| && j < |t| && off <= t[i].size && off + |b| <= 70656
    ensures var t' := WriteResult(t, i, off, b, skip);
      && |t'| == |t|
      && (j == i || (!skip && t[i].kind == Regular && IsChild(t[i], j)) || t'[j] == t[j])
      && t'[i].image == t[i].image[..off] + b + t[i].image[off + |b|..]
      && t'[i].size == (if t[i].kind == Regular && off + |b| > t[i].size then off + |b| else t[i].size)
      && t'[i].sum == (if t[i].kind == Regular then Sum(t'[i].image[..t'[i].size]) else t[i].sum)
      && (j != i && !skip && t[i].kind == Regular && IsChild(t[i], j) ==>
        && t'[j].size == t'[i].size && t'[j].sum == t'[i].sum
        && t'[j].image == if off <= t[j].size then t[j].image[..off] + b + t[j].image[off + |b|..] else t[j].image)
  {
  }

  ghost function WriteResult(t: Files, i: nat, off: nat, b: seq<Byte>, skip: bool): Files
    requires Tree(t) && i < |t| && InodeSpec.WriteAllowed(t[i].size, off, |b|)
  {
    if t[i].kind != Regular then t[i := Spliced(t[i], off, b)]
    else if skip then t[i := WrittenInode(t[i], off, b)]
    else Written(t, i, off, b)
  }
}
