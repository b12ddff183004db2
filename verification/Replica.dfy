/**
  Ditto replicas (xv6/fs.c, xv6/sysfile.c): a file may have up to two replica inodes, written along with
  it, from which a corrupted file is rescued. Files are seen through their byte images, as reading and
  writing inode content provides them (module InodeFs); a write splices bytes into the image.
 */
module Replica {
  import InodeSpec
  import opened Checksum

  const NONE := 0 // no child

  datatype Kind = Unused | Regular | Ditto

  /** `sum` is the stored checksum; child numbers are inode numbers, 0 for none. */
  datatype Inode = Inode(kind: Kind, image: seq<Byte>, size: nat, child1: nat, child2: nat, sum: Word)

  type Files = seq<Inode>

  // ---------------------------------------------------------------- content

  ghost predicate Formed(ip: Inode) {
    |ip.image| == 70656 && ip.size <= 70656
  }

  function Content(ip: Inode): seq<Byte>
    requires ip.size <= |ip.image|
  {
    ip.image[..ip.size]
  }

  function Grown(size: nat, off: nat, n: nat): nat {
    if n > 0 && off + n > size then off + n else size
  }

  predicate IsChild(p: Inode, c: nat) {
    c != NONE && (p.child1 == c || p.child2 == c)
  }

  /** There is a second child only beside a first. */
  predicate FirstThenSecond(p: Inode) {
    p.child2 != NONE ==> p.child1 != NONE
  }

  /** Children are replicas without children; a replica has one parent and one place there. */
  ghost predicate ChildOk(t: Files, p: nat, c: nat)
    requires p < |t|
  {
    IsChild(t[p], c) ==>
      && p != NONE && c < |t| && t[c].kind == Ditto && t[c].child1 == t[c].child2 == NONE && t[p].child1 != t[p].child2
      && forall q :: 0 <= q < |t| && q != p ==> !IsChild(t[q], c)
  }

  ghost predicate Tree(t: Files) {
    && (forall p :: 0 <= p < |t| ==> Formed(t[p]))
    && (forall p, c :: 0 <= p < |t| && 0 <= c ==> ChildOk(t, p, c))
    && (forall p :: 0 <= p < |t| && t[p].kind != Regular ==> t[p].child1 == t[p].child2 == NONE)
  }

  /** Replica c agrees with its parent p in content, size and stored checksum. */
  ghost predicate Agrees(t: Files, p: nat, c: nat)
    requires p < |t| && c < |t| && Formed(t[p]) && Formed(t[c])
  {
    t[c].size == t[p].size && Content(t[c]) == Content(t[p]) && t[c].sum == t[p].sum
  }

  /** The stored checksum of p is right and all replicas of p agree with it. */
  ghost predicate Synced(t: Files, p: nat)
    requires Tree(t) && p < |t|
  {
    && t[p].sum == Sum(Content(t[p]))
    && forall c :: 0 <= c < |t| && IsChild(t[p], c) ==> Agrees(t, p, c)
  }

  // ---------------------------------------------------------------- what a write computes

  /** A file, or replica, after b was written at `off`: image, then size and checksum. */
  ghost function WrittenInode(ip: Inode, off: nat, b: seq<Byte>): (r: Inode)
    requires Formed(ip) && InodeSpec.WriteAllowed(ip.size, off, |b|)
    ensures Formed(r)
  {
    var image, size := InodeSpec.Splice(ip.image, off, b), Grown(ip.size, off, |b|);
    ip.(image := image, size := size, sum := Sum(image[..size]))
  }

  function Spliced(ip: Inode, off: nat, b: seq<Byte>): Inode
    requires off + |b| <= |ip.image|
  {
    ip.(image := InodeSpec.Splice(ip.image, off, b))
  }

  /** The bytes written to a replica, which takes them if its own size admits them. */
  function ChildTakes(c: Inode, off: nat, b: seq<Byte>): Inode
    requires |c.image| == 70656
  {
    if InodeSpec.WriteAllowed(c.size, off, |b|) then Spliced(c, off, b) else c
  }

  /** Slot j after a write to p. A replica takes the bytes as it can, and gets size and checksum from p in any case. */
  ghost function WrittenAt(t: Files, p: nat, off: nat, b: seq<Byte>, j: nat): Inode
    requires Tree(t) && p < |t| && j < |t| && InodeSpec.WriteAllowed(t[p].size, off, |b|)
  {
    var w := WrittenInode(t[p], off, b);
    if j == p then w
    else if IsChild(t[p], j) then ChildTakes(t[j], off, b).(size := w.size, sum := w.sum)
    else t[j]
  }

  /** All files after a write to p: p and its replicas take the bytes, the rest is as before. */
  ghost function Written(t: Files, p: nat, off: nat, b: seq<Byte>): (r: Files)
    requires Tree(t) && p < |t| && InodeSpec.WriteAllowed(t[p].size, off, |b|)
    ensures |r| == |t|
    ensures forall j :: 0 <= j < |t| ==> r[j] == WrittenAt(t, p, off, b, j)
  {
    seq(|t|, j requires 0 <= j < |t| => WrittenAt(t, p, off, b, j))
  }

  lemma TreeKept(t: Files, t': Files)
    requires Tree(t) && |t'| == |t|
    requires forall j :: 0 <= j < |t| ==> Formed(t'[j]) && t'[j].kind == t[j].kind
    requires forall j :: 0 <= j < |t| ==> t'[j].child1 == t[j].child1 && t'[j].child2 == t[j].child2
    ensures Tree(t')
  {
    forall p, c | 0 <= p < |t| && 0 <= c ensures ChildOk(t', p, c) {
      assert ChildOk(t, p, c);
    }
  }

  /** Splicing the same bytes into two images that agree keeps them agreeing, up to the new size. */
  lemma SpliceAgrees(s: seq<Byte>, t: seq<Byte>, size: nat, off: nat, b: seq<Byte>)
    requires |s| == |t| && size <= |s| && s[..size] == t[..size] && off <= size && off + |b| <= |s|
    ensures InodeSpec.Splice(s, off, b)[..Grown(size, off, |b|)] == InodeSpec.Splice(t, off, b)[..Grown(size, off, |b|)]
  {
    var n := Grown(size, off, |b|);
    forall k | 0 <= k < n ensures InodeSpec.Splice(s, off, b)[k] == InodeSpec.Splice(t, off, b)[k] {
      assert k < size ==> s[..size][k] == t[..size][k];
    }
  }

  lemma WriteKeepsTree(t: Files, p: nat, off: nat, b: seq<Byte>)
    requires Tree(t) && p < |t| && InodeSpec.WriteAllowed(t[p].size, off, |b|)
    ensures Tree(Written(t, p, off, b))
  {
    TreeKept(t, Written(t, p, off, b));
  }

  /** A write to a file p leaves every file q that was in step with its replicas in step, whether or not q is p. */
  lemma WriteKeepsReplicas(t: Files, p: nat, off: nat, b: seq<Byte>, q: nat)
    requires Tree(t) && p < |t| && t[p].kind == Regular && InodeSpec.WriteAllowed(t[p].size, off, |b|)
    requires q < |t| && t[q].kind == Regular && Synced(t, q)
    ensures Tree(Written(t, p, off, b)) && Synced(Written(t, p, off, b), q)
  {
    WriteKeepsTree(t, p, off, b);
    var t' := Written(t, p, off, b);
    assert ChildOk(t, p, q);
    forall c | 0 <= c < |t| && IsChild(t'[q], c) ensures Agrees(t', q, c) {
      assert Agrees(t, q, c) && ChildOk(t, q, c) && ChildOk(t, p, c);
      if q == p {
        SpliceAgrees(t[p].image, t[c].image, t[p].size, off, b);
      }
    }
  }
}
