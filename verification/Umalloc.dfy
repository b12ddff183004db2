/**
  The Kernighan & Ritchie storage allocator of xv6/umalloc.c.

  Memory is addressed in units of sizeof(Header) = 8 bytes. The header fields `s.ptr` and `s.size` at
  each unit are two maps that the procedures rewrite in place; `freep` is 0 before the first call.
  A ghost sequence of chunks lists the circular free list once round, starting at `base`.
 */
module Umalloc {
  import opened Basics

  // The static header `base` lies in the program's data, below everything sbrk returns.
  const BASE := 1
  const HEADER_BYTES := 8
  const MIN_GROWTH := 4096

  datatype Chunk = Chunk(addr: int, size: int) {
    function End(): int { addr + size }
  }

  // ---------------------------------------------------------------- the free list as a value

  ghost predicate Above(cs: seq<Chunk>, i: int)
    requires 1 <= i < |cs|
  {
    cs[i - 1].End() <= cs[i].addr
  }

  ghost predicate Gap(cs: seq<Chunk>, i: int)
    requires 1 <= i < |cs|
  {
    cs[i - 1].End() < cs[i].addr
  }

  /** Once round the list: base first, then non-empty chunks in ascending address order. */
  ghost predicate Ordered(cs: seq<Chunk>) {
    && |cs| >= 1
    && cs[0] == Chunk(BASE, 0)
    && (forall i :: 1 <= i < |cs| ==> cs[i].size >= 1 && cs[i].addr > BASE)
    && (forall i :: 1 <= i < |cs| ==> Above(cs, i))
  }

  /** No two neighbours touch: every maximal run of free units is one chunk. */
  ghost predicate Coalesced(cs: seq<Chunk>) {
    Ordered(cs) && forall i :: 1 <= i < |cs| ==> Gap(cs, i)
  }

  lemma {:induction false} OrderedPairs(cs: seq<Chunk>, i: nat, j: nat)
    requires Coalesced(cs) && i < j < |cs|
    ensures cs[i].addr < cs[j].addr && cs[i].End() < cs[j].addr
  {
    if i + 1 < j {
      OrderedPairs(cs, i, j - 1);
    }
    assert Gap(cs, j);
  }

  lemma AddressesDistinct(cs: seq<Chunk>)
    requires Coalesced(cs)
    ensures forall i, j :: 0 <= i < j < |cs| ==> cs[i].addr < cs[j].addr && cs[i].End() < cs[j].addr
  {
    forall i, j | 0 <= i < j < |cs| ensures cs[i].addr < cs[j].addr && cs[i].End() < cs[j].addr {
      OrderedPairs(cs, i, j);
    }
  }

  ghost predicate Covers(cs: seq<Chunk>, u: int) {
    exists i :: 0 <= i < |cs| && cs[i].addr <= u < cs[i].End()
  }

  ghost function Total(cs: seq<Chunk>): int {
    if cs == [] then 0 else Total(cs[..|cs| - 1]) + cs[|cs| - 1].size
  }

  lemma {:induction false} TotalConcat(a: seq<Chunk>, b: seq<Chunk>)
    ensures Total(a + b) == Total(a) + Total(b)
  {
    if b == [] {
      assert a + b == a;
    } else {
      assert (a + b)[..|a + b| - 1] == a + b[..|b| - 1];
      TotalConcat(a, b[..|b| - 1]);
    }
  }

  // ---------------------------------------------------------------- free: insertion with coalescing

  function InsertAfter(cs: seq<Chunk>, k: nat, b: Chunk): seq<Chunk>
    requires k < |cs|
  {
    cs[..k + 1] + [b] + cs[k + 1..]
  }

  /** Merge chunk i with its right neighbour if they touch. */
  function MergeAt(cs: seq<Chunk>, i: nat): seq<Chunk> {
    if i + 1 < |cs| && cs[i].End() == cs[i + 1].addr
    then cs[..i] + [Chunk(cs[i].addr, cs[i].size + cs[i + 1].size)] + cs[i + 2..]
    else cs
  }

  /** Put block b after chunk k and merge it with whichever neighbours it touches. */
  function Insert(cs: seq<Chunk>, k: nat, b: Chunk): seq<Chunk>
    requires k < |cs|
  {
    MergeAt(MergeAt(InsertAfter(cs, k, b), k + 1), k)
  }

  /** Block b lies in the gap after chunk k. */
  ghost predicate InGap(cs: seq<Chunk>, k: nat, b: Chunk) {
    && k < |cs| && b.size >= 1 && b.addr > BASE
    && cs[k].End() <= b.addr
    && (k + 1 < |cs| ==> b.End() <= cs[k + 1].addr)
  }

  lemma InsertAfterMeaning(cs: seq<Chunk>, k: nat, b: Chunk)
    requires Coalesced(cs) && InGap(cs, k, b)
    ensures var r := InsertAfter(cs, k, b);
      && Ordered(r) && Total(r) == Total(cs) + b.size
      && (forall i :: 1 <= i < |r| && i != k + 1 && i != k + 2 ==> Gap(r, i))
  {
    TotalConcat(cs[..k + 1], [b]);
    TotalConcat(cs[..k + 1] + [b], cs[k + 1..]);
    TotalConcat(cs[..k + 1], cs[k + 1..]);
    assert cs[..k + 1] + cs[k + 1..] == cs;
    assert [b][..0] == [];
    var r := InsertAfter(cs, k, b);
    forall i | 1 <= i < |r| ensures Above(r, i) && (i != k + 1 && i != k + 2 ==> Gap(r, i)) {
      if i <= k {
        assert Gap(cs, i);
      } else if i > k + 2 {
        assert Gap(cs, i - 1);
      }
    }
  }

  lemma MergeShape(cs: seq<Chunk>, k: nat)
    requires k + 1 < |cs| && cs[k].End() == cs[k + 1].addr
    ensures var r := MergeAt(cs, k);
      && |r| == |cs| - 1
      && (forall i :: 0 <= i < k ==> r[i] == cs[i])
      && r[k] == Chunk(cs[k].addr, cs[k].size + cs[k + 1].size) && r[k].End() == cs[k + 1].End()
      && (forall i :: k < i < |r| ==> r[i] == cs[i + 1])
  {
  }

  lemma MergeOrdered(cs: seq<Chunk>, k: nat)
    requires Ordered(cs)
    ensures Ordered(MergeAt(cs, k))
  {
    if k + 1 < |cs| && cs[k].End() == cs[k + 1].addr {
      MergeShape(cs, k);
      var r := MergeAt(cs, k);
      forall i | 1 <= i < |r| ensures Above(r, i) {
        if i > k {
          assert Above(cs, i + 1);
        } else {
          assert Above(cs, i);
        }
      }
    }
  }

  lemma MergeTotal(cs: seq<Chunk>, k: nat)
    ensures Total(MergeAt(cs, k)) == Total(cs)
  {
    if k + 1 < |cs| && cs[k].End() == cs[k + 1].addr {
      var m := Chunk(cs[k].addr, cs[k].size + cs[k + 1].size);
      var pair := [cs[k], cs[k + 1]];
      TotalConcat(cs[..k], [m]);
      TotalConcat(cs[..k] + [m], cs[k + 2..]);
      TotalConcat(cs[..k], pair);
      TotalConcat(cs[..k] + pair, cs[k + 2..]);
      assert cs == cs[..k] + pair + cs[k + 2..];
      assert pair[..1] == [cs[k]] && [cs[k]][..0] == [] && [m][..0] == [];
    }
  }

  lemma MergeCovers(cs: seq<Chunk>, k: nat, u: int)
    requires Ordered(cs)
    ensures Covers(MergeAt(cs, k), u) <==> Covers(cs, u)
  {
    if k + 1 < |cs| && cs[k].End() == cs[k + 1].addr {
      MergeShape(cs, k);
      var r := MergeAt(cs, k);
      if i :| 0 <= i < |cs| && cs[i].addr <= u < cs[i].End() {
        assert cs[k].size >= 0 && cs[k + 1].size >= 1;
        var at := if i <= k then i else i - 1;
        assert r[at].addr <= u < r[at].End();
      }
      if i :| 0 <= i < |r| && r[i].addr <= u < r[i].End() {
        var at := if i < k || (i == k && u < cs[k].End()) then i else i + 1;
        assert cs[at].addr <= u < cs[at].End();
      }
    }
  }

  lemma InsertAfterCovers(cs: seq<Chunk>, k: nat, b: Chunk, u: int)
    requires k < |cs|
    ensures Covers(InsertAfter(cs, k, b), u) <==> Covers(cs, u) || b.addr <= u < b.End()
  {
    var r := InsertAfter(cs, k, b);
    if i :| 0 <= i < |cs| && cs[i].addr <= u < cs[i].End() {
      assert if i <= k then r[i] == cs[i] else r[i + 1] == cs[i];
    }
    if i :| 0 <= i < |r| && r[i].addr <= u < r[i].End() {
      assert if i <= k then r[i] == cs[i] else if i == k + 1 then r[i] == b else r[i] == cs[i - 1];
    }
    if b.addr <= u < b.End() {
      assert r[k + 1] == b;
    }
  }

  /** Two neighbours at k + 1 may touch on either side; the two merges leave no touching pair. */
  lemma MergesLeaveGaps(cs: seq<Chunk>, k: nat)
    requires Ordered(cs) && k + 1 < |cs|
    requires forall i :: 1 <= i < |cs| && i != k + 1 && i != k + 2 ==> Gap(cs, i)
    ensures Coalesced(MergeAt(MergeAt(cs, k + 1), k))
  {
    var s1 := MergeAt(cs, k + 1);
    MergeOrdered(cs, k + 1);
    if k + 2 < |cs| && cs[k + 1].End() == cs[k + 2].addr {
      MergeShape(cs, k + 1);
    }
    forall i | 1 <= i < |s1| && i != k + 1 ensures Gap(s1, i) {
      if s1 != cs && i > k + 1 {
        assert Gap(cs, i + 1);
      } else {
        assert Above(cs, i) && (i != k + 2 ==> Gap(cs, i));
      }
    }
    MergeLeavesGaps(s1, k);
  }

  lemma MergeLeavesGaps(cs: seq<Chunk>, k: nat)
    requires Ordered(cs) && k + 1 < |cs|
    requires forall i :: 1 <= i < |cs| && i != k + 1 ==> Gap(cs, i)
    ensures Coalesced(MergeAt(cs, k))
  {
    MergeOrdered(cs, k);
    var r := MergeAt(cs, k);
    if cs[k].End() == cs[k + 1].addr {
      MergeShape(cs, k);
      forall i | 1 <= i < |r| ensures Gap(r, i) {
        assert if i <= k then Gap(cs, i) else Gap(cs, i + 1);
      }
    } else {
      assert Above(cs, k + 1);
    }
  }

  /** Freeing adds exactly the block's units to the free units and leaves the list fully coalesced. */
  lemma InsertMeaning(cs: seq<Chunk>, k: nat, b: Chunk)
    requires Coalesced(cs) && InGap(cs, k, b)
    ensures var r := Insert(cs, k, b);
      && Coalesced(r) && Total(r) == Total(cs) + b.size
      && (forall u :: Covers(r, u) <==> Covers(cs, u) || b.addr <= u < b.End())
  {
    var s0 := InsertAfter(cs, k, b);
    var s1 := MergeAt(s0, k + 1);
    InsertAfterMeaning(cs, k, b);
    MergeOrdered(s0, k + 1);
    MergeTotal(s0, k + 1);
    MergeOrdered(s1, k);
    MergeTotal(s1, k);
    MergesLeaveGaps(s0, k);
    forall u ensures Covers(Insert(cs, k, b), u) <==> Covers(cs, u) || b.addr <= u < b.End() {
      InsertAfterCovers(cs, k, b, u);
      MergeCovers(s0, k + 1, u);
      MergeCovers(s1, k, u);
    }
  }

  // ---------------------------------------------------------------- malloc: taking from a chunk's tail

  /** Remove n units from the end of chunk k; a chunk of exactly n units disappears. */
  function Take(cs: seq<Chunk>, k: nat, n: int): seq<Chunk>
    requires k < |cs|
  {
    if cs[k].size == n then cs[..k] + cs[k + 1..] else cs[k := Chunk(cs[k].addr, cs[k].size - n)]
  }

  lemma TakeCoalesced(cs: seq<Chunk>, k: nat, n: int)
    requires Coalesced(cs) && 1 <= k < |cs| && 1 <= n <= cs[k].size
    ensures Coalesced(Take(cs, k, n))
  {
    var r := Take(cs, k, n);
    forall i | 1 <= i < |r| ensures Above(r, i) && Gap(r, i) {
      if i < k {
        assert Gap(cs, i);
      } else if cs[k].size != n {
        assert Gap(cs, i);
      } else {
        assert Gap(cs, i + 1) && (i == k ==> Gap(cs, k));
      }
    }
  }

  lemma TotalSplit(cs: seq<Chunk>, k: nat)
    requires k < |cs|
    ensures Total(cs) == Total(cs[..k]) + cs[k].size + Total(cs[k + 1..])
  {
    assert cs[..k + 1][..k] == cs[..k];
    TotalConcat(cs[..k + 1], cs[k + 1..]);
    assert cs == cs[..k + 1] + cs[k + 1..];
  }

  lemma TakeTotal(cs: seq<Chunk>, k: nat, n: int)
    requires k < |cs|
    ensures Total(Take(cs, k, n)) == Total(cs) - n
  {
    TotalSplit(cs, k);
    if cs[k].size == n {
      TotalConcat(cs[..k], cs[k + 1..]);
    } else {
      var r := Take(cs, k, n);
      TotalSplit(r, k);
      assert r[..k] == cs[..k] && r[k + 1..] == cs[k + 1..];
    }
  }

  lemma TakeCovers(cs: seq<Chunk>, k: nat, n: int, u: int)
    requires Coalesced(cs) && 1 <= k < |cs| && 1 <= n <= cs[k].size
    ensures Covers(Take(cs, k, n), u) <==> Covers(cs, u) && !(cs[k].End() - n <= u < cs[k].End())
  {
    AddressesDistinct(cs);
    if i :| 0 <= i < |cs| && cs[i].addr <= u < cs[i].End() {
      if !(cs[k].End() - n <= u < cs[k].End()) {
        TakeLeaves(cs, k, n, u, i);
      }
    }
    if i :| 0 <= i < |Take(cs, k, n)| && Take(cs, k, n)[i].addr <= u < Take(cs, k, n)[i].End() {
      TakeAddsNothing(cs, k, n, u, i);
    }
  }

  lemma TakeLeaves(cs: seq<Chunk>, k: nat, n: int, u: int, i: nat)
    requires 1 <= k < |cs| && 1 <= n <= cs[k].size && i < |cs| && cs[i].addr <= u < cs[i].End()
    requires !(cs[k].End() - n <= u < cs[k].End())
    ensures Covers(Take(cs, k, n), u)
  {
    var r := Take(cs, k, n);
    var at := if i > k && cs[k].size == n then i - 1 else i;
    assert r[at].addr <= u < r[at].End();
  }

  lemma TakeAddsNothing(cs: seq<Chunk>, k: nat, n: int, u: int, i: nat)
    requires Coalesced(cs) && 1 <= k < |cs| && 1 <= n <= cs[k].size && i < |Take(cs, k, n)|
    requires Take(cs, k, n)[i].addr <= u < Take(cs, k, n)[i].End()
    ensures Covers(cs, u) && !(cs[k].End() - n <= u < cs[k].End())
  {
    AddressesDistinct(cs);
    var at := if i >= k && cs[k].size == n then i + 1 else i;
    assert cs[at].addr <= u < cs[at].End();
    assert at != k ==> !(cs[k].addr <= u < cs[k].End());
  }

  // ---------------------------------------------------------------- a free list is determined by its units

  lemma LastChunkIsLargest(cs: seq<Chunk>, u: int)
    requires Coalesced(cs) && |cs| >= 2 && Covers(cs, u)
    ensures u < cs[|cs| - 1].End()
  {
    AddressesDistinct(cs);
  }

  lemma BelowLastIsFree(cs: seq<Chunk>)
    requires Coalesced(cs) && |cs| >= 2
    ensures !Covers(cs, cs[|cs| - 1].addr - 1)
  {
    AddressesDistinct(cs);
  }

  lemma PrefixCovers(cs: seq<Chunk>, u: int)
    requires Coalesced(cs) && |cs| >= 2
    ensures var n := |cs| - 1;
      Covers(cs[..n], u) <==> Covers(cs, u) && u < cs[n].addr
  {
    var n := |cs| - 1;
    AddressesDistinct(cs);
    if i :| 0 <= i < |cs| && cs[i].addr <= u < cs[i].End() {
      assert i < n ==> cs[..n][i] == cs[i];
    }
    if i :| 0 <= i < n && cs[..n][i].addr <= u < cs[..n][i].End() {
      assert cs[i].addr <= u < cs[i].End();
    }
  }

  lemma PrefixCoalesced(cs: seq<Chunk>)
    requires Coalesced(cs) && |cs| >= 2
    ensures Coalesced(cs[..|cs| - 1])
  {
    var r := cs[..|cs| - 1];
    forall i | 1 <= i < |r| ensures Above(r, i) && Gap(r, i) {
      assert Gap(cs, i);
    }
  }

  lemma LastChunkDetermined(cs: seq<Chunk>, ds: seq<Chunk>)
    requires Coalesced(cs) && Coalesced(ds) && |cs| >= 2 && |ds| >= 2
    requires forall u :: Covers(cs, u) <==> Covers(ds, u)
    ensures cs[|cs| - 1] == ds[|ds| - 1]
  {
    var c, d := cs[|cs| - 1], ds[|ds| - 1];
    assert Covers(cs, c.End() - 1) && Covers(ds, d.End() - 1);
    LastChunkIsLargest(ds, c.End() - 1);
    LastChunkIsLargest(cs, d.End() - 1);
    BelowLastIsFree(cs);
    BelowLastIsFree(ds);
    assert c.addr < d.addr ==> Covers(cs, d.addr - 1);
    assert d.addr < c.addr ==> Covers(ds, c.addr - 1);
  }

  /** Two coalesced free lists with the same free units are the same list. */
  lemma {:induction false} FreeListCanonical(cs: seq<Chunk>, ds: seq<Chunk>)
    requires Coalesced(cs) && Coalesced(ds)
    requires forall u :: Covers(cs, u) <==> Covers(ds, u)
    ensures cs == ds
    decreases |cs|
  {
    assert |cs| >= 2 ==> Covers(cs, cs[1].addr);
    assert |ds| >= 2 ==> Covers(ds, ds[1].addr);
    if |cs| >= 2 && |ds| >= 2 {
      LastChunkDetermined(cs, ds);
      PrefixCoalesced(cs);
      PrefixCoalesced(ds);
      var c0, d0 := cs[..|cs| - 1], ds[..|ds| - 1];
      forall u ensures Covers(c0, u) <==> Covers(d0, u) {
        PrefixCovers(cs, u);
        PrefixCovers(ds, u);
      }
      FreeListCanonical(c0, d0);
      assert cs == c0 + [cs[|cs| - 1]];
      assert ds == d0 + [ds[|ds| - 1]];
    }
  }
}
