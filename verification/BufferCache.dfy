/**
  The buffer cache of xv6/bio.c: NBUF buffers on a circular doubly linked list with a sentinel head,
  indexed by a hash table that holds one buffer per slot and whose slots are never cleared.

  A pointer to a buffer is its index in the buffer array; HEAD is the sentinel.
 */
module BufferCache {
  import opened Basics

  const HASHSIZE := 4001
  const HEAD := NBUF
  // the device number binit stores, (uint)-1
  const NODEV := 0xFFFF_FFFF

  // ---------------------------------------------------------------- the ring

  /** Buffers in list order between two occurrences of the sentinel. */
  ghost function Ring(order: seq<nat>): (r: seq<nat>)
    ensures |r| == |order| + 2
  {
    [HEAD] + order + [HEAD]
  }

  ghost predicate LinkedAt(next: seq<nat>, prev: seq<nat>, ring: seq<nat>, i: nat)
    requires |next| == |prev| == NBUF + 1 && i + 1 < |ring|
  {
    ring[i] <= NBUF && ring[i + 1] <= NBUF && next[ring[i]] == ring[i + 1] && prev[ring[i + 1]] == ring[i]
  }

  /** No buffer occurs twice. */
  ghost predicate DistinctBuffers(order: seq<nat>) {
    Distinct(order) && forall i :: 0 <= i < |order| ==> order[i] < NBUF
  }

  ghost predicate Linked(next: seq<nat>, prev: seq<nat>, order: seq<nat>) {
    && |next| == |prev| == NBUF + 1 && DistinctBuffers(order)
    && (forall i :: 0 <= i <= |order| ==> LinkedAt(next, prev, Ring(order), i))
  }

  /** The list holds every buffer exactly once. */
  ghost predicate Permutation(order: seq<nat>) {
    DistinctBuffers(order) && forall b :: 0 <= b < NBUF ==> b in order
  }

  ghost function Without(order: seq<nat>, p: nat): (r: seq<nat>)
    requires p < |order|
    ensures |r| == |order| - 1
    ensures forall i :: 0 <= i < |r| ==> r[i] == if i < p then order[i] else order[i + 1]
  {
    order[..p] + order[p + 1..]
  }

  // The two assignments that take b out of the list.
  function UnlinkPrev(next: seq<nat>, prev: seq<nat>, b: nat): seq<nat>
    requires b < |next| && b < |prev| && next[b] < |prev|
  {
    prev[next[b] := prev[b]]
  }

  function UnlinkNext(next: seq<nat>, prev: seq<nat>, b: nat): seq<nat>
    requires b < |next| && b < |prev| && prev[b] < |next|
  {
    next[prev[b] := next[b]]
  }

  lemma UnlinkKeeps(next: seq<nat>, prev: seq<nat>, order: seq<nat>, p: nat)
    requires Linked(next, prev, order) && p < |order|
    ensures next[order[p]] <= NBUF && prev[order[p]] <= NBUF
    ensures Linked(UnlinkNext(next, prev, order[p]), UnlinkPrev(next, prev, order[p]), Without(order, p))
  {
    var b, ring := order[p], Ring(order);
    assert ring[p + 1] == b;
    assert LinkedAt(next, prev, ring, p) && LinkedAt(next, prev, ring, p + 1);
    var next', prev' := UnlinkNext(next, prev, b), UnlinkPrev(next, prev, b);
    var order' := Without(order, p);
    forall i | 0 <= i <= |order'| ensures LinkedAt(next', prev', Ring(order'), i) {
      UnlinkAt(next, prev, order, p, i);
    }
  }

  lemma RingDistinct(order: seq<nat>, i: nat, j: nat)
    requires DistinctBuffers(order) && i < j < |order| + 2 && (i > 0 || j <= |order|)
    ensures Ring(order)[i] != Ring(order)[j]
  {
  }

  lemma UnlinkAt(next: seq<nat>, prev: seq<nat>, order: seq<nat>, p: nat, i: nat)
    requires Linked(next, prev, order) && p < |order| && i < |order|
    requires next[order[p]] == Ring(order)[p + 2] <= NBUF && prev[order[p]] == Ring(order)[p] <= NBUF
    ensures LinkedAt(UnlinkNext(next, prev, order[p]), UnlinkPrev(next, prev, order[p]), Ring(Without(order, p)), i)
  {
    var ring, ring' := Ring(order), Ring(Without(order, p));
    if i < p {
      assert LinkedAt(next, prev, ring, i);
      assert ring'[i] == ring[i] && ring'[i + 1] == ring[i + 1];
      RingDistinct(order, i, p);
      RingDistinct(order, i + 1, p + 2);
    } else if i == p {
      assert ring'[i] == ring[p] && ring'[i + 1] == ring[p + 2];
    } else {
      assert LinkedAt(next, prev, ring, i + 1);
      assert ring'[i] == ring[i + 1] && ring'[i + 1] == ring[i + 2];
      RingDistinct(order, p, i + 1);
      RingDistinct(order, p + 2, i + 2);
    }
  }

  // The four assignments that put b right after the head.
  function PushNext(next: seq<nat>, b: nat): seq<nat>
    requires |next| == NBUF + 1 && b < NBUF
  {
    next[b := next[HEAD]][HEAD := b]
  }

  function PushPrev(next: seq<nat>, prev: seq<nat>, b: nat): seq<nat>
    requires |next| == |prev| == NBUF + 1 && b < NBUF && next[HEAD] <= NBUF
  {
    prev[b := HEAD][next[HEAD] := b]
  }

  lemma PushKeeps(next: seq<nat>, prev: seq<nat>, order: seq<nat>, b: nat)
    requires Linked(next, prev, order) && b < NBUF && b !in order
    ensures next[HEAD] <= NBUF
    ensures Linked(PushNext(next, b), PushPrev(next, prev, b), [b] + order)
  {
    var ring, ring' := Ring(order), Ring([b] + order);
    assert LinkedAt(next, prev, ring, 0);
    var next', prev' := PushNext(next, b), PushPrev(next, prev, b);
    forall i | 0 <= i <= |order| + 1 ensures LinkedAt(next', prev', ring', i) {
      if i >= 2 {
        assert LinkedAt(next, prev, ring, i - 1);
        assert ring'[i] == ring[i - 1] && ring'[i + 1] == ring[i];
        RingDistinct(order, 1, i);
      }
    }
  }

  lemma WithoutKeeps(order: seq<nat>, p: nat)
    requires DistinctBuffers(order) && p < |order|
    ensures DistinctBuffers(Without(order, p)) && order[p] !in Without(order, p)
  {
  }

  lemma MovedPermutation(order: seq<nat>, p: nat)
    requires Permutation(order) && p < |order|
    ensures Permutation([order[p]] + Without(order, p))
  {
    WithoutKeeps(order, p);
    var order' := [order[p]] + Without(order, p);
    forall b | 0 <= b < NBUF ensures b in order' {
      assert b in order;
      var i :| 0 <= i < |order| && order[i] == b;
      assert i < p ==> order'[i + 1] == b;
      assert i > p ==> order'[i] == b;
      assert order'[0] == order[p];
    }
  }

  // ---------------------------------------------------------------- recency

  /** When b was last put in front, counting from 0; -1 for never. */
  ghost function LastAt(history: seq<nat>, b: nat): (r: int)
    ensures -1 <= r < |history|
  {
    if history == [] then -1
    else if history[|history| - 1] == b then |history| - 1
    else LastAt(history[..|history| - 1], b)
  }

  /** The list is in the order in which buffers were last put in front, latest first. */
  ghost predicate ByRecency(order: seq<nat>, history: seq<nat>) {
    forall i, j :: 0 <= i < j < |order| ==> LastAt(history, order[i]) > LastAt(history, order[j])
  }

  lemma LastAfter(history: seq<nat>, b: nat, c: nat)
    ensures LastAt(history + [b], c) == if c == b then |history| else LastAt(history, c)
  {
    assert (history + [b])[..|history|] == history;
  }

  lemma PushRecency(order: seq<nat>, history: seq<nat>, b: nat)
    requires ByRecency(order, history) && b !in order
    ensures ByRecency([b] + order, history + [b])
  {
    var order', history' := [b] + order, history + [b];
    forall i, j | 0 <= i < j < |order'| ensures LastAt(history', order'[i]) > LastAt(history', order'[j]) {
      LastAfter(history, b, order'[i]);
      LastAfter(history, b, order'[j]);
    }
  }

  /** Of the clean, unheld buffers, b was released last. */
  ghost predicate LatestFree(bufs: seq<Buf>, history: seq<nat>, b: nat) {
    && b < |bufs| && !InUse(bufs[b])
    && forall c :: 0 <= c < |bufs| && c != b && !InUse(bufs[c]) ==> LastAt(history, c) < LastAt(history, b)
  }

  lemma FirstIsLatest(bufs: seq<Buf>, order: seq<nat>, history: seq<nat>, b: nat)
    requires |bufs| == NBUF && Permutation(order) && ByRecency(order, history) && FirstFree(bufs, order, b)
    ensures LatestFree(bufs, history, b)
  {
    forall c | 0 <= c < NBUF && c != b && !InUse(bufs[c]) ensures LastAt(history, c) < LastAt(history, b) {
      assert c in order;
    }
  }

  // ---------------------------------------------------------------- the index

  /** What a buffer holds and its flags. */
  datatype Buf = Buf(dev: nat, blockno: nat, busy: bool, valid: bool, dirty: bool)

  predicate Holds(b: Buf, dev: nat, blockno: nat) {
    b.dev == dev && b.blockno == blockno
  }

  /** The plain scan: the first buffer at or after k that holds the block. */
  function Scan(bufs: seq<Buf>, dev: nat, blockno: nat, k: nat): (r: Option<nat>)
    requires k <= |bufs|
    ensures r.Some? ==> k <= r.value < |bufs| && Holds(bufs[r.value], dev, blockno)
    ensures r.None? ==> forall b :: k <= b < |bufs| ==> !Holds(bufs[b], dev, blockno)
    decreases |bufs| - k
  {
    if k == |bufs| then None
    else if Holds(bufs[k], dev, blockno) then Some(k)
    else Scan(bufs, dev, blockno, k + 1)
  }

  /** Each buffer of the device is found in the slot of its block number; other slots may be stale. */
  ghost predicate Indexed(bufs: seq<Buf>, htable: seq<Option<nat>>, device: nat) {
    && |bufs| == NBUF && |htable| == HASHSIZE
    && (forall h :: 0 <= h < HASHSIZE && htable[h].Some? ==> htable[h].value < NBUF)
    && (forall b :: 0 <= b < NBUF && bufs[b].dev == device ==>
      bufs[b].blockno < HASHSIZE && htable[bufs[b].blockno] == Some(b))
  }

  /** No block is cached twice. */
  lemma CachedOnce(bufs: seq<Buf>, htable: seq<Option<nat>>, device: nat, b: nat, c: nat)
    requires Indexed(bufs, htable, device) && b < NBUF && c < NBUF
    requires bufs[b].dev == bufs[c].dev == device && bufs[b].blockno == bufs[c].blockno
    ensures b == c
  {
    assert htable[bufs[b].blockno] == Some(b) && htable[bufs[c].blockno] == Some(c);
  }

  lemma ScanFinds(bufs: seq<Buf>, htable: seq<Option<nat>>, device: nat, b: nat)
    requires Indexed(bufs, htable, device) && b < NBUF && bufs[b].dev == device
    ensures Scan(bufs, device, bufs[b].blockno, 0) == Some(b)
  {
    var r := Scan(bufs, device, bufs[b].blockno, 0);
    assert Holds(bufs[b], device, bufs[b].blockno);
    CachedOnce(bufs, htable, device, b, r.value);
  }

  /** Taking over buffer b for a block no buffer holds keeps the index right and leaves a stale slot. */
  lemma RecycleKeeps(bufs: seq<Buf>, htable: seq<Option<nat>>, device: nat, b: nat, blockno: nat)
    requires Indexed(bufs, htable, device) && b < NBUF && blockno < HASHSIZE
    requires Scan(bufs, device, blockno, 0).None?
    ensures Indexed(bufs[b := Buf(device, blockno, true, false, false)], htable[blockno := Some(b)], device)
  {
    forall c | 0 <= c < NBUF && c != b && bufs[c].dev == device ensures bufs[c].blockno != blockno {
      assert !Holds(bufs[c], device, blockno);
    }
  }

  /** What bget does in one hold of the cache lock. */
  datatype Attempt = Got(b: nat) | MustSleep(on: nat) | NoBuffers

  class Cache {
    var next: seq<nat>
    var prev: seq<nat>
    var bufs: seq<Buf>
    var htable: seq<Option<nat>>
    const device: nat
    ghost var order: seq<nat>
    // every buffer put in front of the list, by binit and then by brelse
    ghost var history: seq<nat>

    ghost predicate Valid()
      reads this
    {
      && Linked(next, prev, order) && Permutation(order) && ByRecency(order, history)
      && Indexed(bufs, htable, device)
    }

    /** binit: an empty table and the buffers pushed one by one, each with no device. */
    constructor (dev: nat)
      requires dev != NODEV
      ensures Valid() && device == dev && |history| == NBUF
      ensures forall b :: 0 <= b < NBUF ==> bufs[b].dev == NODEV
      ensures forall h :: 0 <= h < HASHSIZE ==> htable[h] == None
    {
      device := dev;
      order, history := [], [];
      next := seq(NBUF + 1, _ => HEAD);
      prev := seq(NBUF + 1, _ => HEAD);
      htable := seq(HASHSIZE, _ => None);
      bufs := seq(NBUF, _ => Buf(0, 0, false, false, false));
      new;
      assert LinkedAt(next, prev, Ring([]), 0);
      var b := 0;
      while b < NBUF
        invariant 0 <= b <= NBUF && |bufs| == NBUF && htable == seq(HASHSIZE, _ => None)
        invariant ByRecency(order, history) && |history| == b
        invariant Linked(next, prev, order) && forall c :: 0 <= c < NBUF ==> (c in order <==> c < b)
        invariant forall c :: 0 <= c < b ==> bufs[c].dev == NODEV
      {
        PushFront(b);
        bufs := bufs[b := bufs[b].(dev := NODEV)];
        b := b + 1;
      }
    }

    method PushFront(b: nat)
      requires Linked(next, prev, order) && ByRecency(order, history) && b < NBUF && b !in order
      modifies `next, `prev, `order, `history
      ensures Linked(next, prev, order) && order == [b] + old(order)
      ensures ByRecency(order, history) && history == old(history) + [b]
    {
      PushRecency(order, history, b);
      PushKeeps(next, prev, order, b);
      ghost var next0, prev0 := next, prev;
      next := next[b := next[HEAD]];
      prev := prev[b := HEAD];
      prev := prev[next[HEAD] := b];
      next := next[HEAD := b];
      order, history := [b] + order, history + [b];
      assert next == PushNext(next0, b) && prev == PushPrev(next0, prev0, b);
    }

    /** One probe of the table answers what a scan of all buffers would. */
    method Blookup(dev: nat, blockno: nat) returns (r: Option<nat>)
      requires Valid() && dev == device && blockno < HASHSIZE
      ensures r == Scan(bufs, dev, blockno, 0)
    {
      var b := htable[blockno % HASHSIZE];
      if b.Some? && bufs[b.value].dev == dev && bufs[b.value].blockno == blockno {
        ScanFinds(bufs, htable, device, b.value);
        return b;
      }
      var s := Scan(bufs, dev, blockno, 0);
      assert s.None?;
      return None;
    }

    /**
      A cached block is taken if nobody holds it, else the caller must sleep. A block not cached takes
      over, of the clean and unheld buffers, the one released last; there is a panic only if no buffer is such.
     */
    method Bget(dev: nat, blockno: nat) returns (r: Attempt)
      requires Valid() && dev == device && blockno < HASHSIZE
      modifies `bufs, `htable
      ensures Valid()
      ensures var cached := old(Scan(bufs, dev, blockno, 0));
        && (r.MustSleep? <==> cached.Some? && old(bufs)[cached.value].busy)
        && (r.MustSleep? ==> r.on == cached.value)
        && (r.NoBuffers? <==> cached.None? && forall b :: 0 <= b < NBUF ==> old(bufs)[b].busy || old(bufs)[b].dirty)
        && (r.Got? && cached.Some? ==> r.b == cached.value && htable == old(htable))
        && (r.Got? && cached.Some? ==> bufs == old(bufs)[r.b := old(bufs)[r.b].(busy := true)])
        && (r.Got? && cached.None? ==> r.b < NBUF && htable == old(htable)[blockno := Some(r.b)])
        && (r.Got? && cached.None? ==> bufs == old(bufs)[r.b := Buf(dev, blockno, true, false, false)])
        && (r.Got? && cached.None? ==> !old(bufs)[r.b].busy && !old(bufs)[r.b].dirty)
        && (r.Got? && cached.None? ==> LatestFree(old(bufs), history, r.b))
        && (cached.None? <==> forall b :: 0 <= b < NBUF ==> old(bufs)[b].dev != dev || old(bufs)[b].blockno != blockno)
        && (cached.Some? ==> old(bufs)[cached.value].dev == dev && old(bufs)[cached.value].blockno == blockno)
      ensures !r.Got? ==> bufs == old(bufs) && htable == old(htable)
      ensures r.Got? ==> Scan(bufs, dev, blockno, 0) == Some(r.b) && bufs[r.b].busy
    {
      var c := Blookup(dev, blockno);
      if c.Some? {
        if bufs[c.value].busy {
          return MustSleep(c.value);
        }
        bufs := bufs[c.value := bufs[c.value].(busy := true)];
        ScanFinds(bufs, htable, device, c.value);
        return Got(c.value);
      }
      var b := FindFree();
      if b.None? {
        return NoBuffers;
      }
      FirstIsLatest(bufs, order, history, b.value);
      RecycleKeeps(bufs, htable, device, b.value, blockno);
      bufs := bufs[b.value := Buf(dev, blockno, true, false, false)];
      htable := htable[blockno % HASHSIZE := Some(b.value)];
      ScanFinds(bufs, htable, device, b.value);
      return Got(b.value);
    }

    /** The walk from head.next. */
    method FindFree() returns (r: Option<nat>)
      requires Valid()
      ensures r.None? <==> forall b :: 0 <= b < NBUF ==> InUse(bufs[b])
      ensures r.Some? ==> r.value < NBUF && FirstFree(bufs, order, r.value)
    {
      assert LinkedAt(next, prev, Ring(order), 0);
      var b := next[HEAD];
      ghost var p := 0;
      while b != HEAD
        invariant 0 <= p <= |order| && b == Ring(order)[p + 1]
        invariant forall q :: 0 <= q < p ==> InUse(bufs[order[q]])
        decreases |order| - p
      {
        if !bufs[b].busy && !bufs[b].dirty {
          assert order[p] == b;
          return Some(b);
        }
        assert LinkedAt(next, prev, Ring(order), p + 1);
        b := next[b];
        p := p + 1;
      }
      forall c | 0 <= c < NBUF ensures InUse(bufs[c]) {
        assert c in order;
      }
      return None;
    }

    method Unlink(b: nat, ghost p: nat)
      requires Linked(next, prev, order) && ByRecency(order, history) && p < |order| && b == order[p]
      modifies `next, `prev, `order
      ensures Linked(next, prev, order) && order == Without(old(order), p) && b !in order && ByRecency(order, history)
    {
      UnlinkKeeps(next, prev, order, p);
      WithoutKeeps(order, p);
      ghost var next0, prev0 := next, prev;
      prev := prev[next[b] := prev[b]];
      next := next[prev[b] := next[b]];
      order := Without(order, p);
      assert next == UnlinkNext(next0, prev0, b) && prev == UnlinkPrev(next0, prev0, b);
    }

    /** Moves the buffer to the front of the list and gives it up; panics when it is not held. */
    method Brelse(b: nat) returns (ok: bool)
      requires Valid() && b < NBUF
      modifies `next, `prev, `bufs, `order, `history
      ensures Valid() && ok == old(bufs)[b].busy
      ensures !ok ==> bufs == old(bufs) && order == old(order) && history == old(history)
      ensures ok ==> history == old(history) + [b]
      ensures ok ==> bufs == old(bufs)[b := old(bufs)[b].(busy := false)]
      ensures ok ==> exists p :: 0 <= p < |old(order)| && old(order)[p] == b && order == [b] + Without(old(order), p)
    {
      if !bufs[b].busy {
        return false;
      }
      assert b in order;
      ghost var p :| 0 <= p < |order| && order[p] == b;
      MovedPermutation(order, p);
      Unlink(b, p);
      PushFront(b);
      bufs := bufs[b := bufs[b].(busy := false)];
      return true;
    }
  }

  predicate InUse(b: Buf) {
    b.busy || b.dirty
  }

  /** b is clean and unheld, and every buffer before it in the list is held or dirty. */
  ghost predicate FirstFree(bufs: seq<Buf>, order: seq<nat>, b: nat)
    requires |bufs| == NBUF && DistinctBuffers(order)
  {
    exists p :: 0 <= p < |order| && order[p] == b && !InUse(bufs[b]) && forall q :: 0 <= q < p ==> InUse(bufs[order[q]])
  }
}
