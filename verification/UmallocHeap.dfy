/**
  `free`, `morecore` and `malloc` of xv6/umalloc.c, rewriting headers in place.

  The header fields `s.ptr` and `s.size` of all units are two maps; `freep` is 0 before the first call.
  Addresses and the process size count units of HEADER_BYTES. `sbrk` is modelled with its signed argument;
  whether the kernel has memory left is an argument of the calls that need to know.
 */
module UmallocHeap {
  import opened Basics
  import opened Umalloc

  function Wrap(i: nat, n: nat): nat {
    if i >= n then i - n else i
  }

  /** The i-th chunk's header holds its size and points to the next chunk round the circle. */
  ghost predicate LinkedAt(ptr: map<int, int>, size: map<int, int>, cs: seq<Chunk>, i: nat)
    requires i < |cs|
  {
    && cs[i].addr in ptr && cs[i].addr in size
    && size[cs[i].addr] == cs[i].size
    && ptr[cs[i].addr] == cs[Wrap(i + 1, |cs|)].addr
  }

  /** The headers in memory form exactly this circular list. */
  ghost predicate Linked(ptr: map<int, int>, size: map<int, int>, cs: seq<Chunk>) {
    forall i :: 0 <= i < |cs| ==> LinkedAt(ptr, size, cs, i)
  }

  ghost predicate Listed(cs: seq<Chunk>, a: int) {
    exists i :: 0 <= i < |cs| && cs[i].addr == a
  }

  predicate Within(lo: int, hi: int, u: int) {
    lo <= u < hi
  }

  ghost function Units(lo: int, hi: int): set<int> {
    set u | lo <= u < hi && Within(lo, hi, u)
  }

  ghost predicate Represents(cs: seq<Chunk>, free: set<int>) {
    forall u :: u in free <==> Covers(cs, u)
  }

  /** Live blocks overlap neither each other nor a free unit; everything lies between base and top. */
  ghost predicate Apart(free: set<int>, live: map<nat, int>, top: int) {
    && BASE < top
    && (forall u :: u in free ==> BASE < u < top)
    && (forall a :: a in live ==> BASE < a && live[a] >= 1 && a + live[a] <= top)
    && (forall a, b :: a in live && b in live && a < b ==> a + live[a] <= b)
    && (forall a, u :: a in live && u in free ==> !(a <= u < a + live[a]))
  }

  ghost function LiveTotal(live: map<nat, int>): int
    decreases |live|
  {
    if live == map[] then 0
    else
      var a :| a in live;
      live[a] + LiveTotal(live - {a})
  }

  lemma {:induction false} LiveTotalRemove(live: map<nat, int>, b: nat)
    requires b in live
    ensures LiveTotal(live) == live[b] + LiveTotal(live - {b})
    decreases |live|
  {
    var a :| a in live && LiveTotal(live) == live[a] + LiveTotal(live - {a});
    if a != b {
      LiveTotalRemove(live - {a}, b);
      LiveTotalRemove(live - {b}, a);
      assert live - {a} - {b} == live - {b} - {a};
    }
  }

  lemma LiveTotalAdd(live: map<nat, int>, b: nat, n: int)
    requires b !in live
    ensures LiveTotal(live[b := n]) == LiveTotal(live) + n
  {
    LiveTotalRemove(live[b := n], b);
    assert live[b := n] - {b} == live;
  }

  // ---------------------------------------------------------------- linking lemmas

  /** A live block lies in the gap after the chunk that precedes it. */
  lemma LiveInGap(cs: seq<Chunk>, free: set<int>, live: map<nat, int>, top: int, a: nat, k: nat)
    requires Coalesced(cs) && Represents(cs, free) && Apart(free, live, top) && a in live
    requires k < |cs| && cs[k].addr < a && (k + 1 < |cs| ==> a < cs[k + 1].addr)
    ensures InGap(cs, k, Chunk(a, live[a]))
  {
    assert cs[k].End() > a ==> Covers(cs, a);
    assert k + 1 < |cs| ==> Covers(cs, cs[k + 1].addr);
  }

  /** The chunk after which address a belongs. */
  lemma FindBefore(cs: seq<Chunk>, a: int) returns (k: nat)
    requires Coalesced(cs) && BASE < a && !Covers(cs, a)
    ensures k < |cs| && cs[k].addr < a && (k + 1 < |cs| ==> a < cs[k + 1].addr)
  {
    k := 0;
    while k + 1 < |cs| && cs[k + 1].addr < a
      invariant k < |cs| && cs[k].addr < a
    {
      k := k + 1;
    }
    assert k + 1 < |cs| && cs[k + 1].addr == a ==> Covers(cs, a);
  }

  lemma PlaceOf(ar: Arena, bp: nat) returns (k: nat)
    requires Shape(ar) && bp in ar.live
    ensures BASE < bp
    ensures k < |ar.cs| && ar.cs[k].addr < bp && (k + 1 < |ar.cs| ==> bp < ar.cs[k + 1].addr)
  {
    assert bp !in ar.free;
    k := FindBefore(ar.cs, bp);
  }

  lemma PlaceUnique(cs: seq<Chunk>, a: int, k: nat, j: nat)
    requires Coalesced(cs)
    requires k < |cs| && cs[k].addr < a && (k + 1 < |cs| ==> a < cs[k + 1].addr)
    requires j < |cs| && cs[j].addr < a && (j + 1 < |cs| ==> a < cs[j + 1].addr)
    ensures k == j
  {
    if k + 1 < j {
      OrderedPairs(cs, k + 1, j);
    } else if j + 1 < k {
      OrderedPairs(cs, j + 1, k);
    }
  }

  ghost predicate TouchRight(cs: seq<Chunk>, k: nat, b: Chunk)
    requires k < |cs|
  {
    k + 1 < |cs| && b.End() == cs[k + 1].addr
  }

  /** Insertion written out: which chunks survive and where the block's units went. */
  lemma InsertShape(cs: seq<Chunk>, k: nat, b: Chunk)
    requires Coalesced(cs) && InGap(cs, k, b)
    ensures var r := Insert(cs, k, b);
      var m := if TouchRight(cs, k, b) then Chunk(b.addr, b.size + cs[k + 1].size) else b;
      var rest := cs[if TouchRight(cs, k, b) then k + 2 else k + 1..];
      if cs[k].End() == b.addr then r == cs[..k] + [Chunk(cs[k].addr, cs[k].size + m.size)] + rest
      else r == cs[..k + 1] + [m] + rest
  {
    var s0 := InsertAfter(cs, k, b);
    var s1 := MergeAt(s0, k + 1);
    var m := if TouchRight(cs, k, b) then Chunk(b.addr, b.size + cs[k + 1].size) else b;
    var rest := cs[if TouchRight(cs, k, b) then k + 2 else k + 1..];
    assert s1 == cs[..k + 1] + [m] + rest;
    assert s1[..k] == cs[..k];
    assert s1[k + 2..] == rest;
  }

  /** The headers of the chunks mid are chained, the last one to `next`. */
  ghost predicate ChainAt(ptr: map<int, int>, size: map<int, int>, mid: seq<Chunk>, i: nat, next: int)
    requires i < |mid|
  {
    && mid[i].addr in ptr && mid[i].addr in size
    && size[mid[i].addr] == mid[i].size
    && ptr[mid[i].addr] == if i + 1 < |mid| then mid[i + 1].addr else next
  }

  ghost predicate SameHeader(ptr: map<int, int>, size: map<int, int>, ptr': map<int, int>, size': map<int, int>,
                             a: int) {
    a in ptr && a in size && a in ptr' && a in size' && ptr'[a] == ptr[a] && size'[a] == size[a]
  }

  /** Replacing chunks k .. j-1 of the list by a chain that starts where they did relinks the list. */
  lemma LinkedSplice(ptr: map<int, int>, size: map<int, int>, ptr': map<int, int>, size': map<int, int>,
                     cs: seq<Chunk>, k: nat, mid: seq<Chunk>, j: nat)
    requires Linked(ptr, size, cs) && k < j <= |cs| && mid != []
    requires mid[0].addr == cs[k].addr
    requires forall i :: 0 <= i < |cs| && !(k <= i < j) ==> SameHeader(ptr, size, ptr', size', cs[i].addr)
    requires forall i :: 0 <= i < |mid| ==> ChainAt(ptr', size', mid, i, cs[Wrap(j, |cs|)].addr)
    ensures Linked(ptr', size', cs[..k] + mid + cs[j..])
  {
    var r := cs[..k] + mid + cs[j..];
    var n, n' := |cs|, |r|;
    assert r[0].addr == cs[0].addr;
    forall i | 0 <= i < n' ensures LinkedAt(ptr', size', r, i) {
      if i < k {
        assert LinkedAt(ptr, size, cs, i);
        assert r[i] == cs[i] && SameHeader(ptr, size, ptr', size', cs[i].addr);
        assert r[i + 1].addr == cs[i + 1].addr;
      } else if i < k + |mid| {
        assert ChainAt(ptr', size', mid, i - k, cs[Wrap(j, n)].addr);
        assert r[i] == mid[i - k];
        assert i + 1 < k + |mid| ==> r[i + 1] == mid[i + 1 - k];
        assert j < n ==> r[k + |mid|] == cs[j];
      } else {
        var o := i - k - |mid| + j;
        assert LinkedAt(ptr, size, cs, o);
        assert r[i] == cs[o] && SameHeader(ptr, size, ptr', size', cs[o].addr);
        assert i + 1 < n' ==> r[i + 1] == cs[o + 1];
      }
    }
  }

  lemma LiveNotListed(cs: seq<Chunk>, free: set<int>, live: map<nat, int>, top: int)
    requires Coalesced(cs) && Represents(cs, free) && Apart(free, live, top)
    ensures forall a, i :: a in live && 0 <= i < |cs| ==> cs[i].addr != a
  {
    forall a, i | a in live && 0 <= i < |cs| ensures cs[i].addr != a {
      assert i > 0 ==> Covers(cs, cs[i].addr);
    }
  }

  // ---------------------------------------------------------------- what free writes

  /** The `s.ptr` fields after `free` has linked block b in behind header p. */
  function FreedPtr(ptr: map<int, int>, size: map<int, int>, p: int, b: Chunk): map<int, int>
    requires p in ptr && p in size && ptr[p] in ptr
  {
    var next := ptr[p];
    var ptr1 := ptr[b.addr := if b.End() == next then ptr[next] else next];
    ptr1[p := if p + size[p] == b.addr then ptr1[b.addr] else b.addr]
  }

  function FreedSize(ptr: map<int, int>, size: map<int, int>, p: int, b: Chunk): map<int, int>
    requires p in ptr && p in size && ptr[p] in size
  {
    var next := ptr[p];
    var size1 := if b.End() == next then size[b.addr := b.size + size[next]] else size[b.addr := b.size];
    if p + size[p] == b.addr then size1[p := size[p] + size1[b.addr]] else size1
  }

  lemma DistinctFrom(cs: seq<Chunk>, i: nat, k: nat)
    requires Coalesced(cs) && i < |cs| && k < |cs| && i != k
    ensures cs[i].addr != cs[k].addr && (cs[i].End() < cs[k].addr || cs[k].End() < cs[i].addr)
  {
    if i < k {
      OrderedPairs(cs, i, k);
    } else {
      OrderedPairs(cs, k, i);
    }
  }

  /** `free` writes no header other than the block's own and its predecessor's. */
  lemma FreeKeepsHeaders(ptr: map<int, int>, size: map<int, int>, cs: seq<Chunk>, k: nat, b: Chunk, i: nat)
    requires Coalesced(cs) && Linked(ptr, size, cs) && k < |cs| && i < |cs| && i != k && cs[i].addr != b.addr
    requires var p := cs[k].addr; p in ptr && p in size && ptr[p] in ptr && ptr[p] in size
    ensures var p := cs[k].addr;
      SameHeader(ptr, size, FreedPtr(ptr, size, p, b), FreedSize(ptr, size, p, b), cs[i].addr)
  {
    DistinctFrom(cs, i, k);
    assert LinkedAt(ptr, size, cs, i);
  }

  /** The chunks that replace chunk k (and its right neighbour, if joined). */
  function FreedMid(cs: seq<Chunk>, k: nat, b: Chunk): seq<Chunk>
    requires k < |cs|
  {
    var m := if k + 1 < |cs| && b.End() == cs[k + 1].addr then Chunk(b.addr, b.size + cs[k + 1].size) else b;
    if cs[k].End() == b.addr then [Chunk(cs[k].addr, cs[k].size + m.size)] else [cs[k], m]
  }

  lemma FreeChains(ptr: map<int, int>, size: map<int, int>, cs: seq<Chunk>, k: nat, b: Chunk)
    requires Coalesced(cs) && Linked(ptr, size, cs) && InGap(cs, k, b)
    ensures var p := cs[k].addr;
      && p in ptr && p in size && ptr[p] in ptr && ptr[p] in size
      && var ptr', size' := FreedPtr(ptr, size, p, b), FreedSize(ptr, size, p, b);
      var j := if TouchRight(cs, k, b) then k + 2 else k + 1;
      forall i :: 0 <= i < |FreedMid(cs, k, b)| ==>
        ChainAt(ptr', size', FreedMid(cs, k, b), i, cs[Wrap(j, |cs|)].addr)
  {
    assert LinkedAt(ptr, size, cs, k);
    assert LinkedAt(ptr, size, cs, Wrap(k + 1, |cs|));
    if k + 1 < |cs| {
      DistinctFrom(cs, k, k + 1);
    }
  }

  lemma InsertSplices(cs: seq<Chunk>, k: nat, b: Chunk)
    requires Coalesced(cs) && InGap(cs, k, b)
    ensures var j := if TouchRight(cs, k, b) then k + 2 else k + 1;
      Insert(cs, k, b) == cs[..k] + FreedMid(cs, k, b) + cs[j..]
  {
    InsertShape(cs, k, b);
  }

  lemma FreeRelinks(ptr: map<int, int>, size: map<int, int>, cs: seq<Chunk>, k: nat, b: Chunk)
    requires Coalesced(cs) && Linked(ptr, size, cs) && InGap(cs, k, b)
    requires forall i :: 0 <= i < |cs| ==> cs[i].addr != b.addr
    ensures var p := cs[k].addr;
      && p in ptr && p in size && ptr[p] in ptr && ptr[p] in size
      && Linked(FreedPtr(ptr, size, p, b), FreedSize(ptr, size, p, b), Insert(cs, k, b))
  {
    FreeChains(ptr, size, cs, k, b);
    InsertSplices(cs, k, b);
    var p := cs[k].addr;
    var ptr', size' := FreedPtr(ptr, size, p, b), FreedSize(ptr, size, p, b);
    var j := if TouchRight(cs, k, b) then k + 2 else k + 1;
    forall i | 0 <= i < |cs| && !(k <= i < j) ensures SameHeader(ptr, size, ptr', size', cs[i].addr) {
      FreeKeepsHeaders(ptr, size, cs, k, b, i);
    }
    LinkedSplice(ptr, size, ptr', size', cs, k, FreedMid(cs, k, b), j);
  }

  /** `malloc` of a whole chunk: its predecessor skips it. */
  lemma TakeWholeRelinks(ptr: map<int, int>, size: map<int, int>, cs: seq<Chunk>, k: nat)
    requires Coalesced(cs) && Linked(ptr, size, cs) && 1 <= k < |cs|
    ensures LinkedAt(ptr, size, cs, k)
    ensures Linked(ptr[cs[k - 1].addr := ptr[cs[k].addr]], size, Take(cs, k, cs[k].size))
  {
    assert LinkedAt(ptr, size, cs, k) && LinkedAt(ptr, size, cs, k - 1);
    var ptr' := ptr[cs[k - 1].addr := ptr[cs[k].addr]];
    var mid := [cs[k - 1]];
    assert Take(cs, k, cs[k].size) == cs[..k - 1] + mid + cs[k + 1..];
    forall i | 0 <= i < |cs| && !(k - 1 <= i < k + 1) ensures SameHeader(ptr, size, ptr', size, cs[i].addr) {
      assert LinkedAt(ptr, size, cs, i);
      DistinctFrom(cs, i, k - 1);
    }
    assert ChainAt(ptr', size, mid, 0, cs[Wrap(k + 1, |cs|)].addr);
    LinkedSplice(ptr, size, ptr', size, cs, k - 1, mid, k + 1);
  }

  /** `malloc` of a chunk's tail: the chunk shrinks, and a new header appears inside its old extent. */
  lemma TakeTailRelinks(ptr: map<int, int>, size: map<int, int>, cs: seq<Chunk>, k: nat, n: int)
    requires Coalesced(cs) && Linked(ptr, size, cs) && 1 <= k < |cs| && 1 <= n < cs[k].size
    ensures Linked(ptr, size[cs[k].addr := cs[k].size - n][cs[k].End() - n := n], Take(cs, k, n))
  {
    assert LinkedAt(ptr, size, cs, k);
    var size' := size[cs[k].addr := cs[k].size - n][cs[k].End() - n := n];
    var mid := [Chunk(cs[k].addr, cs[k].size - n)];
    assert Take(cs, k, n) == cs[..k] + mid + cs[k + 1..];
    forall i | 0 <= i < |cs| && !(k <= i < k + 1) ensures SameHeader(ptr, size, ptr, size', cs[i].addr) {
      assert LinkedAt(ptr, size, cs, i);
      DistinctFrom(cs, i, k);
    }
    assert ChainAt(ptr, size', mid, 0, cs[Wrap(k + 1, |cs|)].addr);
    LinkedSplice(ptr, size, ptr, size', cs, k, mid, k + 1);
  }

  // ---------------------------------------------------------------- separation lemmas

  lemma ApartAfterFree(free: set<int>, live: map<nat, int>, top: int, a: nat)
    requires Apart(free, live, top) && a in live
    ensures Apart(free + Units(a, a + live[a]), live - {a}, top)
  {
  }

  lemma ApartAfterTake(free: set<int>, live: map<nat, int>, top: int, a: nat, n: int)
    requires Apart(free, live, top) && n >= 1 && Units(a, a + n) <= free
    ensures a !in live && Apart(free - Units(a, a + n), live[a := n], top)
  {
    assert a in Units(a, a + n) && a + n - 1 in Units(a, a + n);
    forall b | b in live ensures b + live[b] <= a || a + n <= b {
      assert a <= b < a + n ==> b in Units(a, a + n);
    }
  }

  lemma ApartAfterGrowth(free: set<int>, live: map<nat, int>, top: int, a: nat, n: int)
    requires Apart(free, live, top) && top <= a && n >= 1
    ensures a !in live && Apart(free, live[a := n], a + n)
  {
  }

  // ---------------------------------------------------------------- the allocator

  /** Units needed for nbytes, in the 32-bit arithmetic of `malloc`. */
  function UnitsFor(nbytes: nat): (n: nat)
    ensures n >= 1
  {
    (nbytes + HEADER_BYTES - 1) % 0x1_0000_0000 / HEADER_BYTES + 1
  }

  function Growth(n: nat): nat {
    if n < MIN_GROWTH then MIN_GROWTH else n
  }

  const KERNBASE := 0x8000_0000
  const LIMIT := 0x1000_0000 // KERNBASE / HEADER_BYTES

  /** The bytes `morecore` asks for, a product of unsigned ints, as the signed int that `sbrk` takes. */
  function SbrkArg(nu: nat): int {
    var bytes := nu * HEADER_BYTES % 0x1_0000_0000;
    if bytes >= 0x8000_0000 then bytes - 0x1_0000_0000 else bytes
  }

  /** What `sbrk` returns, None for -1, and where the process's memory then ends. */
  datatype Grant = Grant(addr: Option<nat>, end: nat)

  /**
    `sys_sbrk` and `growproc` on a process of sz bytes. A shrink below zero wraps to a size that is not
    smaller, so `deallocuvm` does nothing and reports success; a shrink to zero frees everything and then
    counts as a failure.
   */
  function Sbrk(sz: nat, n: int, memory: bool): Grant {
    if n > 0 then
      if sz + n >= KERNBASE || !memory then Grant(None, sz) else Grant(Some(sz), sz + n)
    else if n == 0 || sz + n < 0 then Grant(Some(sz), sz)
    else if sz + n == 0 then Grant(None, 0)
    else Grant(Some(sz), sz + n)
  }

  /** `morecore`'s call of `sbrk`, in units. */
  function Ask(sz: nat, nu: nat, memory: bool): Grant {
    var g := Sbrk(sz * HEADER_BYTES, SbrkArg(Growth(nu)), memory);
    Grant(if g.addr.Some? then Some(g.addr.value / HEADER_BYTES) else None, g.end / HEADER_BYTES)
  }

  lemma SbrkArgIs(nu: nat)
    requires nu <= 0x2000_0000
    ensures SbrkArg(nu) ==
      if nu < LIMIT then nu * HEADER_BYTES else if nu < 0x2000_0000 then nu * HEADER_BYTES - 0x1_0000_0000 else 0
  {
  }

  /**
    `sbrk` grants the units asked for, at the old end of memory, exactly when they are fewer than LIMIT
    and it does not fail. From LIMIT on its argument is not positive, and memory does not grow.
   */
  lemma AskGrants(sz: nat, nu: nat, memory: bool)
    requires sz < LIMIT && 1 <= nu <= 0x2000_0000
    ensures Ask(sz, nu, memory).end < LIMIT
    ensures Growth(nu) == if nu < 4096 then 4096 else nu
    ensures nu < LIMIT && (sz + Growth(nu) >= LIMIT || !memory) ==> Ask(sz, nu, memory) == Grant(None, sz)
    ensures nu < LIMIT && sz + Growth(nu) < LIMIT && memory ==>
      Ask(sz, nu, memory) == Grant(Some(sz), sz + Growth(nu))
    ensures nu >= LIMIT ==> Ask(sz, nu, memory).end <= sz
    ensures nu >= LIMIT ==>
      var left := sz + nu - 0x2000_0000;
      Ask(sz, nu, memory) == if left < 0 || nu == 0x2000_0000 then Grant(Some(sz), sz)
        else if left == 0 then Grant(None, 0)
        else Grant(Some(sz), left)
  {
    SbrkArgIs(Growth(nu));
  }

  lemma UnitsForBounds(nbytes: nat)
    requires nbytes < 0x1_0000_0000
    ensures UnitsFor(nbytes) <= 0x2000_0000
    ensures UnitsFor(nbytes) < LIMIT <==> nbytes <= 0x7FFF_FFF0 || nbytes > 0xFFFF_FFF8
    ensures (UnitsFor(nbytes) - 1) * HEADER_BYTES >= nbytes <==> nbytes <= 0xFFFF_FFF8
    ensures nbytes <= 0xFFFF_FFF8 ==> (UnitsFor(nbytes) - 2) * HEADER_BYTES < nbytes
    ensures nbytes > 0xFFFF_FFF8 ==> UnitsFor(nbytes) == 1
  {
    if nbytes > 0xFFFF_FFF8 {
      assert (nbytes + HEADER_BYTES - 1) % 0x1_0000_0000 == nbytes + HEADER_BYTES - 1 - 0x1_0000_0000;
    }
  }

  /** A request for 0xFFFFFFF8 bytes comes to 2^29 units, for which `sbrk` is asked for no bytes and succeeds. */
  lemma GrantOfNothing(sz: nat, memory: bool)
    ensures UnitsFor(0xFFFF_FFF8) == 0x2000_0000 && SbrkArg(0x2000_0000) == 0
    ensures Ask(sz, UnitsFor(0xFFFF_FFF8), memory) == Grant(Some(sz), sz)
  {
  }

  ghost predicate SomeFits(cs: seq<Chunk>, n: int) {
    exists i :: 0 <= i < |cs| && cs[i].size >= n
  }

  /** The ghost side of the heap: free list from base, free units, live blocks, their upper end, units ever added. */
  datatype Arena = Arena(cs: seq<Chunk>, free: set<int>, live: map<nat, int>, top: int, obtained: int)

  /** The blocks tile what was added: free chunks coalesced, live blocks apart, no unit lost. */
  ghost predicate Shape(ar: Arena) {
    && Coalesced(ar.cs) && Represents(ar.cs, ar.free) && Apart(ar.free, ar.live, ar.top)
    && Total(ar.cs) + LiveTotal(ar.live) == ar.obtained
  }

  /** The headers in memory say so. */
  ghost predicate Stored(ptr: map<int, int>, size: map<int, int>, freep: int, ar: Arena) {
    && (forall a :: a in ar.live ==> a in size && size[a] == ar.live[a])
    && (freep == 0 ==> ar.cs == [Chunk(BASE, 0)] && ar.live == map[])
    && (freep != 0 ==> Linked(ptr, size, ar.cs) && Listed(ar.cs, freep))
  }

  ghost predicate Sound(ptr: map<int, int>, size: map<int, int>, freep: int, ar: Arena) {
    Shape(ar) && Stored(ptr, size, freep, ar)
  }

  ghost function Freed(ar: Arena, k: nat, bp: nat): Arena
    requires k < |ar.cs| && bp in ar.live
  {
    var n := ar.live[bp];
    ar.(cs := Insert(ar.cs, k, Chunk(bp, n)), free := ar.free + Units(bp, bp + n), live := ar.live - {bp})
  }

  lemma FreeShape(ar: Arena, k: nat, bp: nat)
    requires Shape(ar) && bp in ar.live && k < |ar.cs| && InGap(ar.cs, k, Chunk(bp, ar.live[bp]))
    ensures Shape(Freed(ar, k, bp))
  {
    var b := Chunk(bp, ar.live[bp]);
    FreeList(ar.cs, ar.free, k, b);
    ReleasedShape(ar, bp, Insert(ar.cs, k, b));
  }

  lemma ReleasedShape(ar: Arena, bp: nat, cs: seq<Chunk>)
    requires Shape(ar) && bp in ar.live
    requires Coalesced(cs) && Represents(cs, ar.free + Units(bp, bp + ar.live[bp]))
    requires Total(cs) == Total(ar.cs) + ar.live[bp]
    ensures Shape(ar.(cs := cs, free := ar.free + Units(bp, bp + ar.live[bp]), live := ar.live - {bp}))
  {
    ApartAfterFree(ar.free, ar.live, ar.top, bp);
    LiveTotalRemove(ar.live, bp);
  }

  lemma FreeList(cs: seq<Chunk>, free: set<int>, k: nat, b: Chunk)
    requires Coalesced(cs) && Represents(cs, free) && InGap(cs, k, b)
    ensures Coalesced(Insert(cs, k, b)) && Total(Insert(cs, k, b)) == Total(cs) + b.size
    ensures Represents(Insert(cs, k, b), free + Units(b.addr, b.addr + b.size))
  {
    InsertMeaning(cs, k, b);
  }

  lemma FreeStored(ptr: map<int, int>, size: map<int, int>, freep: int, ar: Arena, k: nat, bp: nat)
    requires Sound(ptr, size, freep, ar) && bp in ar.live && k < |ar.cs| && ar.cs[k].addr < bp
    requires InGap(ar.cs, k, Chunk(bp, ar.live[bp]))
    ensures var p, b := ar.cs[k].addr, Chunk(bp, ar.live[bp]);
      && p != bp && p != 0 && p in ptr && p in size && ptr[p] in ptr && ptr[p] in size && ptr[p] != bp
      && Stored(FreedPtr(ptr, size, p, b), FreedSize(ptr, size, p, b), p, Freed(ar, k, bp))
  {
    var b := Chunk(bp, ar.live[bp]);
    LiveNotListed(ar.cs, ar.free, ar.live, ar.top);
    FreeRelinks(ptr, size, ar.cs, k, b);
    InsertLists(ar.cs, k, b);
    assert LinkedAt(ptr, size, ar.cs, k);
    AboveBase(ar.cs, k);
  }

  /** Freeing a live block, seen on values. */
  lemma FreeSound(ptr: map<int, int>, size: map<int, int>, freep: int, ar: Arena, k: nat, bp: nat)
    requires Sound(ptr, size, freep, ar) && bp in ar.live
    requires k < |ar.cs| && ar.cs[k].addr < bp && (k + 1 < |ar.cs| ==> bp < ar.cs[k + 1].addr)
    ensures var p, b := ar.cs[k].addr, Chunk(bp, ar.live[bp]);
      && p != bp && p != 0 && p in ptr && p in size && ptr[p] in ptr && ptr[p] in size && ptr[p] != bp
      && Sound(FreedPtr(ptr, size, p, b), FreedSize(ptr, size, p, b), p, Freed(ar, k, bp))
  {
    LiveInGap(ar.cs, ar.free, ar.live, ar.top, bp, k);
    FreeShape(ar, k, bp);
    FreeStored(ptr, size, freep, ar, k, bp);
  }

  lemma AboveBase(cs: seq<Chunk>, k: nat)
    requires Coalesced(cs) && k < |cs|
    ensures cs[k].addr >= BASE
  {
  }

  function Grown(ar: Arena, a: nat, n: nat): Arena {
    Arena(ar.cs, ar.free, ar.live[a := n], a + n, ar.obtained + n)
  }

  /** A fresh region from sbrk is, for a moment, a live block. */
  lemma GrowSound(ptr: map<int, int>, size: map<int, int>, freep: int, ar: Arena, a: nat, n: nat)
    requires Sound(ptr, size, freep, ar) && ar.top <= a && n >= 1 && freep != 0
    ensures a !in ar.live && Sound(ptr, size[a := n], freep, Grown(ar, a, n))
    ensures Grown(ar, a, n).live - {a} == ar.live
  {
    GrowShape(ar, a, n);
    NoHeaderAbove(ptr, size, ar, a, n);
  }

  lemma GrowShape(ar: Arena, a: nat, n: nat)
    requires Shape(ar) && ar.top <= a && n >= 1
    ensures a !in ar.live && Shape(Grown(ar, a, n))
  {
    ApartAfterGrowth(ar.free, ar.live, ar.top, a, n);
    LiveTotalAdd(ar.live, a, n);
  }

  function TakenPtr(ptr: map<int, int>, cs: seq<Chunk>, k: nat, n: int): map<int, int>
    requires 1 <= k < |cs| && cs[k].addr in ptr
  {
    if cs[k].size == n then ptr[cs[k - 1].addr := ptr[cs[k].addr]] else ptr
  }

  function TakenSize(size: map<int, int>, cs: seq<Chunk>, k: nat, n: int): map<int, int>
    requires k < |cs|
  {
    if cs[k].size == n then size else size[cs[k].addr := cs[k].size - n][cs[k].End() - n := n]
  }

  /** Allocating the last n units of chunk k. */
  ghost function Taken(ar: Arena, k: nat, n: int): Arena
    requires k < |ar.cs| && ar.cs[k].End() - n >= 0
  {
    HandedOut(ar, ar.cs[k].End() - n, n, Take(ar.cs, k, n))
  }

  /** Units a to a + n become a live block, and cs lists what is left. */
  ghost function HandedOut(ar: Arena, a: nat, n: int, cs: seq<Chunk>): Arena {
    ar.(cs := cs, free := ar.free - Units(a, a + n), live := ar.live[a := n])
  }

  lemma TakeRelinks(ptr: map<int, int>, size: map<int, int>, cs: seq<Chunk>, k: nat, n: int)
    requires Coalesced(cs) && Linked(ptr, size, cs) && 1 <= k < |cs| && 1 <= n <= cs[k].size
    ensures LinkedAt(ptr, size, cs, k)
    ensures Linked(TakenPtr(ptr, cs, k, n), TakenSize(size, cs, k, n), Take(cs, k, n))
    ensures Listed(Take(cs, k, n), cs[k - 1].addr)
  {
    TakeWholeRelinks(ptr, size, cs, k);
    if n < cs[k].size {
      TakeTailRelinks(ptr, size, cs, k, n);
    }
    assert Take(cs, k, n)[k - 1] == cs[k - 1];
  }

  lemma ChunkCovered(cs: seq<Chunk>, k: nat, n: int)
    requires Coalesced(cs) && 1 <= k < |cs| && 1 <= n <= cs[k].size
    ensures cs[k].End() - n > BASE
    ensures forall u :: cs[k].End() - n <= u < cs[k].End() ==> Covers(cs, u)
  {
  }

  lemma TakeShape(ar: Arena, k: nat, n: int)
    requires Shape(ar) && 1 <= k < |ar.cs| && 1 <= n <= ar.cs[k].size
    ensures var a := ar.cs[k].End() - n;
      a > BASE && a !in ar.live && Shape(Taken(ar, k, n)) && Units(a, a + n) <= ar.free
  {
    TakeList(ar.cs, ar.free, k, n);
    var a: nat, cs := ar.cs[k].End() - n, Take(ar.cs, k, n);
    HandedOutShape(ar, a, n, cs);
    assert Taken(ar, k, n) == HandedOut(ar, a, n, cs);
  }

  lemma HandedOutShape(ar: Arena, a: nat, n: int, cs: seq<Chunk>)
    requires Shape(ar) && n >= 1 && Units(a, a + n) <= ar.free
    requires Coalesced(cs) && Represents(cs, ar.free - Units(a, a + n)) && Total(cs) == Total(ar.cs) - n
    ensures a !in ar.live && Shape(HandedOut(ar, a, n, cs))
  {
    ApartAfterTake(ar.free, ar.live, ar.top, a, n);
    LiveTotalAdd(ar.live, a, n);
  }

  lemma TakeList(cs: seq<Chunk>, free: set<int>, k: nat, n: int)
    requires Coalesced(cs) && Represents(cs, free) && 1 <= k < |cs| && 1 <= n <= cs[k].size
    ensures Coalesced(Take(cs, k, n)) && Total(Take(cs, k, n)) == Total(cs) - n
    ensures var a := cs[k].End() - n;
      a > BASE && Units(a, a + n) <= free && Represents(Take(cs, k, n), free - Units(a, a + n))
  {
    ChunkCovered(cs, k, n);
    TakeCoalesced(cs, k, n);
    TakeTotal(cs, k, n);
    TakeUncovers(cs, k, n);
  }

  lemma TakeUncovers(cs: seq<Chunk>, k: nat, n: int)
    requires Coalesced(cs) && 1 <= k < |cs| && 1 <= n <= cs[k].size
    ensures forall u :: Covers(Take(cs, k, n), u) <==> Covers(cs, u) && !(cs[k].End() - n <= u < cs[k].End())
  {
    var cs' := Take(cs, k, n);
    forall u ensures Covers(cs', u) <==> Covers(cs, u) && !(cs[k].End() - n <= u < cs[k].End()) {
      TakeCovers(cs, k, n, u);
    }
  }

  lemma TakeStored(ptr: map<int, int>, size: map<int, int>, freep: int, ar: Arena, k: nat, n: int)
    requires Sound(ptr, size, freep, ar) && freep != 0 && 1 <= k < |ar.cs| && 1 <= n <= ar.cs[k].size
    requires ar.cs[k].End() - n > BASE && ar.cs[k].End() - n !in ar.live
    ensures LinkedAt(ptr, size, ar.cs, k)
    ensures Stored(TakenPtr(ptr, ar.cs, k, n), TakenSize(size, ar.cs, k, n), ar.cs[k - 1].addr, Taken(ar, k, n))
  {
    TakeRelinks(ptr, size, ar.cs, k, n);
    LiveNotListed(ar.cs, ar.free, ar.live, ar.top);
    AboveBase(ar.cs, k - 1);
  }

  lemma TakeSound(ptr: map<int, int>, size: map<int, int>, freep: int, ar: Arena, k: nat, n: int)
    requires Sound(ptr, size, freep, ar) && freep != 0 && 1 <= k < |ar.cs| && 1 <= n <= ar.cs[k].size
    ensures LinkedAt(ptr, size, ar.cs, k)
    ensures ar.cs[k].End() - n > BASE
    ensures Sound(TakenPtr(ptr, ar.cs, k, n), TakenSize(size, ar.cs, k, n), ar.cs[k - 1].addr, Taken(ar, k, n))
  {
    TakeShape(ar, k, n);
    TakeStored(ptr, size, freep, ar, k, n);
  }

  lemma GapAfter(cs: seq<Chunk>, i: nat)
    requires Coalesced(cs) && i < |cs|
    ensures !Covers(cs, cs[i].End())
  {
    forall j | 0 <= j < |cs| && j != i ensures !(cs[j].addr <= cs[i].End() < cs[j].End()) {
      DistinctFrom(cs, i, j);
    }
  }

  /** A run of free units lies within one chunk. */
  lemma RunInOneChunk(cs: seq<Chunk>, free: set<int>, a: int, n: int)
    requires Coalesced(cs) && Represents(cs, free) && n >= 1 && Units(a, a + n) <= free
    ensures SomeFits(cs, n)
  {
    assert a in Units(a, a + n);
    assert Covers(cs, a);
    var i: nat :| i < |cs| && cs[i].addr <= a < cs[i].End();
    GapAfter(cs, i);
    var e := cs[i].End();
    assert Within(a, a + n, e) ==> e in Units(a, a + n);
    assert cs[i].size >= n;
  }

  /** The list position w + 1 places after f, going round. */
  function Spot(f: nat, w: nat, n: nat): nat {
    Wrap(f + 1 + w, n)
  }

  /** The v chunks after position f, going round, are all smaller than n. */
  ghost predicate Scanned(cs: seq<Chunk>, f: nat, v: nat, n: int)
    requires f < |cs| && v <= |cs|
  {
    forall w :: 0 <= w < v ==> cs[Spot(f, w, |cs|)].size < n
  }

  /** Chunk k is the first with n units after the one that freep heads, going round. */
  ghost predicate NextFit(cs: seq<Chunk>, freep: int, n: int, k: nat) {
    exists f: nat, v: nat ::
      f < |cs| && v < |cs| && cs[f].addr == freep && k == Spot(f, v, |cs|) && Scanned(cs, f, v, n) && cs[k].size >= n
  }

  /** The block at r is the last n units of that chunk, and the next search starts behind the chunk before it. */
  ghost predicate TailOfNext(cs: seq<Chunk>, freep: int, n: int, r: int, freep': int) {
    exists k :: 1 <= k < |cs| && NextFit(cs, freep, n, k) && r == cs[k].End() - n + 1 && freep' == cs[k - 1].addr
  }

  lemma ScannedMore(cs: seq<Chunk>, f: nat, v: nat, n: int)
    requires f < |cs| && v < |cs| && Scanned(cs, f, v, n) && cs[Spot(f, v, |cs|)].size < n
    ensures Scanned(cs, f, v + 1, n)
  {
  }

  lemma ScannedAll(cs: seq<Chunk>, f: nat, n: int)
    requires f < |cs| && Scanned(cs, f, |cs|, n)
    ensures !SomeFits(cs, n)
  {
    forall i | 0 <= i < |cs| ensures cs[i].size < n {
      var w := if i > f then i - f - 1 else i + |cs| - f - 1;
      assert Spot(f, w, |cs|) == i;
    }
  }

  /** No chunk is larger than what lies below the end of all blocks. */
  lemma ChunksBelowTop(ar: Arena, n: int)
    requires Shape(ar) && n >= ar.top
    ensures !SomeFits(ar.cs, n)
  {
    forall i | 0 <= i < |ar.cs| ensures ar.cs[i].size < n {
      assert ar.cs[i].size >= 1 ==> Covers(ar.cs, ar.cs[i].End() - 1);
    }
  }

  /** From sz to sz', as `malloc` of n units moves the break and the highest unit it has. */
  ghost predicate BreakMoved(ar: Arena, sz: nat, ar': Arena, sz': nat, n: nat, memory: bool) {
    var g := Ask(sz, n, memory);
    if SomeFits(ar.cs, n) then sz' == sz && ar'.top == ar.top
    else sz' == g.end && (g.addr.Some? ==> ar'.top == sz + Growth(n))
  }

  /** What `malloc` hands out has memory behind it if and only if its units are below 2^28. */
  lemma BackedExactly(ar: Arena, sz: nat, ar': Arena, sz': nat, n: nat, memory: bool, r: int)
    requires Shape(ar) && ar.top <= sz < LIMIT && 1 <= n <= 0x2000_0000 && Shape(ar')
    requires Allocated(ar, ar', n, Ask(sz, n, memory).addr, r) && BreakMoved(ar, sz, ar', sz', n, memory)
    ensures ar'.top <= sz' && ar'.obtained - ar.obtained == sz' - sz <==> n < LIMIT
    ensures r != 0 ==> (r - 1 + n <= sz' <==> n < LIMIT)
  {
    AskGrants(sz, n, memory);
    if ar.top <= n {
      ChunksBelowTop(ar, n);
    }
    if r != 0 {
      AllocatedBelowTop(ar, ar', n, Ask(sz, n, memory).addr, r);
    }
  }

  lemma AllocatedBelowTop(ar: Arena, ar': Arena, n: nat, grant: Option<nat>, r: int)
    requires Allocated(ar, ar', n, grant, r) && Shape(ar') && r != 0
    ensures r - 1 + n <= ar'.top
  {
    assert r - 1 in ar'.live;
  }

  /**
    What `malloc` of n units leaves behind when it returns r: the block is new among the live blocks,
    its units were free or have just come from sbrk, and nothing else changed.
   */
  ghost predicate Allocated(ar: Arena, ar': Arena, n: nat, grant: Option<nat>, r: int) {
    var grows := !SomeFits(ar.cs, n);
    if grows && grant.None? then r == 0 && ar' == ar
    else
      var added := if grows then Units(grant.value, grant.value + Growth(n)) else {};
      && r >= 2 && r - 1 !in ar.live && ar'.live == ar.live[r - 1 := n]
      && ar'.obtained == ar.obtained + (if grows then Growth(n) else 0)
      && Units(r - 1, r - 1 + n) <= ar.free + added
      && ar'.free == ar.free + added - Units(r - 1, r - 1 + n)
  }

  class Heap {
    var ptr: map<int, int>
    var size: map<int, int>
    var freep: int
    var sz: nat           // size of the process, where its memory ends
    ghost var ar: Arena
    ghost var granted: int // units by which sbrk has grown the process for this heap

    ghost predicate Valid()
      reads this
    {
      Sound(ptr, size, freep, ar) && sz < LIMIT
    }

    /** All blocks lie in the process's memory, and what the free and live units add up to is what sbrk granted. */
    ghost predicate Backed()
      reads this
    {
      ar.top <= sz && ar.obtained == granted
    }

    constructor (sz0: nat)
      requires BASE < sz0 < LIMIT
      ensures Valid() && Backed() && freep == 0 && sz == sz0
      ensures ar == Arena([Chunk(BASE, 0)], {}, map[], sz0, 0)
    {
      ptr, size, freep, sz := map[], map[], 0, sz0;
      ar := Arena([Chunk(BASE, 0)], {}, map[], sz0, 0);
      granted := 0;
      new;
      assert ar.cs[..0] == [];
    }

    /** The search loop of `free`: the header after which the block at bp belongs. */
    method FindPlace(bp: nat, ghost k: nat) returns (p: int)
      requires Valid() && freep != 0 && BASE < bp
      requires k < |ar.cs| && ar.cs[k].addr < bp && (k + 1 < |ar.cs| ==> bp < ar.cs[k + 1].addr)
      ensures p == ar.cs[k].addr
    {
      p := freep;
      ghost var cs := ar.cs;
      ghost var c: nat :| c < |cs| && cs[c].addr == p;
      assert LinkedAt(ptr, size, cs, c);
      while !(bp > p && bp < ptr[p])
        invariant c < |cs| && cs[c].addr == p
        invariant LinkedAt(ptr, size, cs, c)
        decreases if c <= k then k - c else k + |cs| - c
      {
        if c + 1 < |cs| {
          OrderedPairs(cs, c, c + 1);
        }
        if p >= ptr[p] && (bp > p || bp < ptr[p]) {
          break;
        }
        p := ptr[p];
        c := Wrap(c + 1, |cs|);
        assert LinkedAt(ptr, size, cs, c);
      }
      PlaceUnique(cs, bp, c, k);
    }

    /** The pointer surgery of `free` behind header p. */
    method LinkIn(p: int, bp: int)
      requires p in ptr && p in size && bp in size && ptr[p] in ptr && ptr[p] in size && p != bp && ptr[p] != bp
      modifies this`ptr, this`size
      ensures ptr == FreedPtr(old(ptr), old(size), p, Chunk(bp, old(size)[bp]))
      ensures size == FreedSize(old(ptr), old(size), p, Chunk(bp, old(size)[bp]))
    {
      var next := ptr[p];
      if bp + size[bp] == next {
        size := size[bp := size[bp] + size[next]];
        ptr := ptr[bp := ptr[next]];
      } else {
        ptr := ptr[bp := next];
      }
      if p + size[p] == bp {
        size := size[p := size[p] + size[bp]];
        ptr := ptr[p := ptr[bp]];
      } else {
        ptr := ptr[p := bp];
      }
    }

    /**
      `free`: the block leaves the live blocks and exactly its units join the free units; the list is
      again circular, ordered and fully coalesced.
     */
    method Free(ap: int)
      requires Valid() && ap >= 1 && ap - 1 in ar.live
      modifies this`ptr, this`size, this`freep, this`ar
      ensures Valid() && freep != 0
      ensures ar.live == old(ar.live) - {ap - 1} && ar.top == old(ar.top) && ar.obtained == old(ar.obtained)
      ensures ar.free == old(ar.free) + Units(ap - 1, ap - 1 + old(ar.live)[ap - 1])
      ensures old(Backed()) ==> Backed()
    {
      var bp: nat := ap - 1;
      ghost var k := PlaceOf(ar, bp);
      var p := FindPlace(bp, k);
      PutBack(p, bp, k);
    }

    /** The tail of `free`, once the place for the block has been found. */
    method PutBack(p: int, bp: nat, ghost k: nat)
      requires Valid() && bp in ar.live && k < |ar.cs| && p == ar.cs[k].addr < bp
      requires k + 1 < |ar.cs| ==> bp < ar.cs[k + 1].addr
      modifies this`ptr, this`size, this`freep, this`ar
      ensures Valid() && freep != 0
      ensures ar.live == old(ar.live) - {bp} && ar.top == old(ar.top) && ar.obtained == old(ar.obtained)
      ensures ar.free == old(ar.free) + Units(bp, bp + old(ar.live)[bp])
    {
      FreeSound(ptr, size, freep, ar, k, bp);
      LinkIn(p, bp);
      freep := p;
      ar := Freed(ar, k, bp);
    }

    /** `morecore`: a region of at least MIN_GROWTH units joins the free list; 0 if sbrk fails. */
    method Morecore(nu: nat, memory: bool) returns (r: int)
      requires Valid() && 1 <= nu <= 0x2000_0000 && freep != 0 && ar.top <= sz
      modifies this
      ensures Valid() && freep != 0 && ar.live == old(ar.live)
      ensures sz == Ask(old(sz), nu, memory).end && granted == old(granted) + sz - old(sz)
      ensures Ask(old(sz), nu, memory).addr.None? ==> r == 0 && ar == old(ar) && freep == old(freep)
      ensures Ask(old(sz), nu, memory).addr.Some? ==>
        && r == freep && ar.obtained == old(ar.obtained) + Growth(nu) && ar.top == old(sz) + Growth(nu)
        && ar.free == old(ar.free) + Units(old(sz), old(sz) + Growth(nu))
    {
      AskGrants(sz, nu, memory);
      var n := nu;
      if n < MIN_GROWTH {
        n := MIN_GROWTH;
      }
      var g := Ask(sz, n, memory);
      granted := granted + g.end - sz;
      sz := g.end;
      match g.addr
      case None =>
        r := 0;
      case Some(hp) =>
        AddRegion(hp, n);
        r := freep;
    }

    /** Write a header over a fresh region and hand it to `free`. */
    method AddRegion(hp: nat, n: nat)
      requires Valid() && freep != 0 && ar.top <= hp && n >= 1
      modifies this`ptr, this`size, this`freep, this`ar
      ensures Valid() && freep != 0
      ensures ar.live == old(ar.live) && ar.top == hp + n && ar.obtained == old(ar.obtained) + n
      ensures ar.free == old(ar.free) + Units(hp, hp + n)
    {
      GrowSound(ptr, size, freep, ar, hp, n);
      size := size[hp := n];
      ar := Grown(ar, hp, n);
      Free(hp + 1);
    }

    /** The header writes of `malloc` for a found chunk; the result is the address behind the block's header. */
    method Cut(prevp: int, chunk: int, nunits: nat, ghost cs: seq<Chunk>, ghost k: nat) returns (r: int)
      requires 1 <= k < |cs| && prevp == cs[k - 1].addr && LinkedAt(ptr, size, cs, k) && chunk == cs[k].addr
      modifies this`ptr, this`size
      ensures ptr == TakenPtr(old(ptr), cs, k, nunits) && size == TakenSize(old(size), cs, k, nunits)
      ensures r == cs[k].End() - nunits + 1
    {
      var p := chunk;
      if size[p] == nunits {
        ptr := ptr[prevp := ptr[p]];
      } else {
        size := size[p := size[p] - nunits];
        p := p + size[p];
        size := size[p := nunits];
      }
      r := p + 1;
    }

    /** The tail of `malloc` once a large enough chunk k, behind prevp, has been found. */
    method Carve(prevp: int, chunk: int, nunits: nat, ghost k: nat, ghost ar0: Arena, ghost grant: Option<nat>)
      returns (r: int)
      requires Valid() && freep != 0 && 1 <= k < |ar.cs| && 1 <= nunits <= ar.cs[k].size
      requires prevp == ar.cs[k - 1].addr && chunk == ar.cs[k].addr
      requires ar == ar0 || GrownFrom(ar0, ar, nunits, grant)
      modifies this`ptr, this`size, this`freep, this`ar
      ensures Valid() && freep != 0 && ar.top == old(ar.top)
      ensures Allocated(ar0, ar, nunits, grant, r)
      ensures r == old(ar.cs)[k].End() - nunits + 1 && freep == prevp
    {
      TakeSound(ptr, size, freep, ar, k, nunits);
      TakenIsAllocated(ar0, ar, k, nunits, grant);
      AboveBase(ar.cs, k - 1);
      ghost var left := Taken(ar, k, nunits);
      r := Cut(prevp, chunk, nunits, ar.cs, k);
      freep := prevp;
      ar := left;
    }

    /** `morecore` called because no chunk was large enough. */
    method Refill(nunits: nat, memory: bool) returns (p: int)
      requires Valid() && freep != 0 && 1 <= nunits <= 0x2000_0000 && !SomeFits(ar.cs, nunits) && ar.top <= sz
      modifies this
      ensures Valid() && freep != 0
      ensures sz == Ask(old(sz), nunits, memory).end && granted == old(granted) + sz - old(sz)
      ensures Ask(old(sz), nunits, memory).addr.None? ==> p == 0 && ar == old(ar)
      ensures Ask(old(sz), nunits, memory).addr.Some? ==>
        p == freep && ar.top == old(sz) + Growth(nunits) && GrownFrom(old(ar), ar, nunits, Some(old(sz)))
    {
      p := Morecore(nunits, memory);
      if p != 0 {
        RunInOneChunk(ar.cs, ar.free, old(sz), nunits);
      }
    }

    /**
      One trip of `malloc`'s search loop round the list from freep: the first chunk with nunits units and
      its predecessor, or not found when the cursor comes back to freep.
     */
    method Search(nunits: nat) returns (found: bool, prevp: int, p: int, ghost k: nat)
      requires Valid() && freep != 0 && nunits >= 1
      ensures found <==> SomeFits(ar.cs, nunits)
      ensures found ==> 1 <= k < |ar.cs| && ar.cs[k].size >= nunits && p == ar.cs[k].addr && prevp == ar.cs[k - 1].addr
      ensures found ==> NextFit(ar.cs, freep, nunits, k)
    {
      ghost var f := IndexOf(ar.cs, freep);
      ghost var v := 0;
      assert LinkedAt(ptr, size, ar.cs, f);
      prevp := freep;
      p := ptr[prevp];
      k := Spot(f, 0, |ar.cs|);
      assert LinkedAt(ptr, size, ar.cs, k);
      while size[p] < nunits
        invariant Cursor(ar.cs, f, v, freep, prevp, p) && Scanned(ar.cs, f, v, nunits)
        invariant k == Spot(f, v, |ar.cs|) && LinkedAt(ptr, size, ar.cs, k)
        decreases |ar.cs| - v
      {
        if p == freep {
          CursorAtEnd(ar.cs, f, v, freep, prevp, p, nunits);
          return false, prevp, p, k;
        }
        ScannedMore(ar.cs, f, v, nunits);
        prevp := p;
        p := ptr[p];
        v := v + 1;
        k := Spot(f, v, |ar.cs|);
        assert LinkedAt(ptr, size, ar.cs, k);
      }
      assert ar.cs[k].size >= nunits;
      found := true;
    }

    /** The block behind r lies in the process's memory and has room for nbytes behind its header. */
    ghost predicate HoldsRequest(r: int, nbytes: nat)
      reads this
    {
      r - 1 + UnitsFor(nbytes) <= sz && (UnitsFor(nbytes) - 1) * HEADER_BYTES >= nbytes
    }

    /**
      `malloc`: a block of UnitsFor(nbytes) units, taken from units that were free or just came from
      sbrk; sbrk is asked exactly when no free chunk is large enough, and 0 is returned exactly when
      it then fails. After `morecore` the search goes on from the new freep and must succeed, so the
      source's endless loop makes at most two trips round the list.

      In a heap that is backed by memory, the block is and has room for the request if and only if
      nbytes <= 0x7FFFFFF0. Above that the byte count given to sbrk is no longer positive, and the heap
      loses its backing; from 0xFFFFFFF9 on the unit count wraps as well, to a block without room. There are no page
      faults here: the header goes in at the old break even where no page is mapped.
     */
    method Malloc(nbytes: nat, memory: bool) returns (r: int)
      requires Valid() && nbytes < 0x1_0000_0000
      requires ar.top <= sz || SomeFits(ar.cs, UnitsFor(nbytes))
      modifies this
      ensures Valid() && freep != 0
      ensures Allocated(old(ar), ar, UnitsFor(nbytes), Ask(old(sz), UnitsFor(nbytes), memory).addr, r)
      ensures old(SomeFits(ar.cs, UnitsFor(nbytes))) ==> sz == old(sz) && granted == old(granted)
      ensures old(freep) != 0 && old(SomeFits(ar.cs, UnitsFor(nbytes))) ==>
        TailOfNext(old(ar.cs), old(freep), UnitsFor(nbytes), r, freep)
      ensures old(Backed()) ==> (Backed() <==> nbytes <= 0x7FFF_FFF0 || nbytes > 0xFFFF_FFF8)
      ensures old(Backed()) && r != 0 ==> (HoldsRequest(r, nbytes) <==> nbytes <= 0x7FFF_FFF0)
    {
      UnitsForBounds(nbytes);
      ghost var ar0, sz0 := ar, sz;
      r := Allocate(UnitsFor(nbytes), memory);
      if ar0.top <= sz0 {
        BackedExactly(ar0, sz0, ar, sz, UnitsFor(nbytes), memory, r);
      }
    }

    /** The loop of `malloc`. */
    method Allocate(nunits: nat, memory: bool) returns (r: int)
      requires Valid() && 1 <= nunits <= 0x2000_0000 && (ar.top <= sz || SomeFits(ar.cs, nunits))
      modifies this
      ensures Valid() && freep != 0
      ensures Allocated(old(ar), ar, nunits, Ask(old(sz), nunits, memory).addr, r)
      ensures BreakMoved(old(ar), old(sz), ar, sz, nunits, memory) && granted == old(granted) + sz - old(sz)
      ensures old(freep) != 0 && old(SomeFits(ar.cs, nunits)) ==> TailOfNext(old(ar.cs), old(freep), nunits, r, freep)
    {
      if freep == 0 {
        InitList();
      }
      var found, prevp, p, k := Search(nunits);
      if found {
        r := Carve(prevp, p, nunits, k, ar, None);
      } else {
        r := GrowAndTake(nunits, memory);
      }
    }

    /** The loop goes on after `morecore`, from the new freep. */
    method GrowAndTake(nunits: nat, memory: bool) returns (r: int)
      requires Valid() && freep != 0 && 1 <= nunits <= 0x2000_0000 && !SomeFits(ar.cs, nunits) && ar.top <= sz
      modifies this
      ensures Valid() && freep != 0
      ensures Allocated(old(ar), ar, nunits, Ask(old(sz), nunits, memory).addr, r)
      ensures sz == Ask(old(sz), nunits, memory).end && granted == old(granted) + sz - old(sz)
      ensures Ask(old(sz), nunits, memory).addr.Some? ==> ar.top == old(sz) + Growth(nunits)
    {
      AskGrants(sz, nunits, memory);
      var p := Refill(nunits, memory);
      if p == 0 {
        return 0;
      }
      var found, prevp, q, k := Search(nunits);
      r := Carve(prevp, q, nunits, k, old(ar), Some(old(sz)));
    }

    /** Other code of the process raises the break. */
    method OtherSbrk(end: nat)
      requires Valid() && sz <= end < LIMIT
      modifies this`sz
      ensures Valid() && sz == end && (old(Backed()) ==> Backed())
    {
      sz := end;
    }

    /** The first call makes base a circular list of one empty chunk. */
    method InitList()
      requires Valid() && freep == 0
      modifies this`ptr, this`size, this`freep
      ensures Valid() && freep != 0
    {
      ptr := ptr[BASE := BASE];
      freep := BASE;
      size := size[BASE := 0];
      assert LinkedAt(ptr, size, ar.cs, 0);
      assert ar.cs[0].addr == BASE;
    }
  }

  lemma IndexOf(cs: seq<Chunk>, a: int) returns (f: nat)
    requires Listed(cs, a)
    ensures f < |cs| && cs[f].addr == a
  {
    f :| 0 <= f < |cs| && cs[f].addr == a;
  }

  /** `malloc`'s cursor: v chunks past freep (position f), with prevp trailing by one. */
  ghost predicate Cursor(cs: seq<Chunk>, f: nat, v: nat, freep: int, prevp: int, p: int) {
    && f < |cs| && v < |cs| && cs[f].addr == freep
    && prevp == cs[Wrap(f + v, |cs|)].addr
    && p == cs[Spot(f, v, |cs|)].addr
  }

  /** When the cursor is back at freep, every chunk has been looked at. */
  lemma CursorAtEnd(cs: seq<Chunk>, f: nat, v: nat, freep: int, prevp: int, p: int, n: int)
    requires Coalesced(cs) && Cursor(cs, f, v, freep, prevp, p) && Scanned(cs, f, v, n)
    requires p == freep && cs[Spot(f, v, |cs|)].size < n
    ensures !SomeFits(cs, n)
  {
    var k := Spot(f, v, |cs|);
    if k != f {
      DistinctFrom(cs, k, f);
    }
    ScannedMore(cs, f, v, n);
    ScannedAll(cs, f, n);
  }

  /** The arena after a successful `morecore` for n units. */
  ghost predicate GrownFrom(ar: Arena, ar': Arena, n: nat, grant: Option<nat>) {
    && !SomeFits(ar.cs, n) && grant.Some? && SomeFits(ar'.cs, n)
    && ar'.live == ar.live && ar'.obtained == ar.obtained + Growth(n)
    && ar'.free == ar.free + Units(grant.value, grant.value + Growth(n))
  }

  lemma TakenIsAllocated(ar0: Arena, ar: Arena, k: nat, n: nat, grant: Option<nat>)
    requires ar == ar0 || GrownFrom(ar0, ar, n, grant)
    requires Shape(ar) && 1 <= k < |ar.cs| && ar.cs[k].size >= n >= 1
    ensures ar.cs[k].End() - n > BASE
    ensures Allocated(ar0, Taken(ar, k, n), n, grant, ar.cs[k].End() - n + 1)
  {
    TakeShape(ar, k, n);
    assert SomeFits(ar.cs, n);
  }

  /** The predecessor of the freed block heads a chunk of the new list. */
  lemma InsertLists(cs: seq<Chunk>, k: nat, b: Chunk)
    requires Coalesced(cs) && InGap(cs, k, b)
    ensures Listed(Insert(cs, k, b), cs[k].addr)
  {
    InsertShape(cs, k, b);
    assert Insert(cs, k, b)[k].addr == cs[k].addr;
  }

  /** A header written at or above the break is not one of the list's headers. */
  lemma NoHeaderAbove(ptr: map<int, int>, size: map<int, int>, ar: Arena, a: nat, n: int)
    requires Shape(ar) && Linked(ptr, size, ar.cs) && ar.top <= a
    ensures Linked(ptr, size[a := n], ar.cs)
  {
    var cs := ar.cs;
    var size' := size[a := n];
    forall i | 0 <= i < |cs| ensures LinkedAt(ptr, size', cs, i) {
      assert LinkedAt(ptr, size, cs, i);
      assert i > 0 ==> Covers(cs, cs[i].addr);
    }
  }
}
