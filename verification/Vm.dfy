/**
  The page allocator of xv6/kalloc.c and the page-table code of xv6/vm.c, in place on physical memory,
  proved against PageTable. Addresses are page aligned where the code rounds them; a page number stands
  for the address 4096 times as large.
 */
module Vm {
  import opened Basics
  import opened PageTable

  /** All frames but free ones, directory d and the tables of d are as before. */
  ghost predicate Keeps(m: Mem, own: seq<Place>, m': Mem, own': seq<Place>, d: nat) {
    && |m'| == |m| == |own| == |own'|
    && (forall f :: 0 <= f < |m| && own[f] != OnFreeList && f != d && !(own[f].TableOf? && own[f].d == d) ==>
      m'[f] == m[f] && own'[f] == own[f])
  }

  /** No frame has changed its place but free ones that went to address space d. */
  ghost predicate Takes(own: seq<Place>, own': seq<Place>, d: nat) {
    && |own'| == |own|
    && (forall f :: 0 <= f < |own| ==>
      own'[f] == own[f] || (own[f] == OnFreeList && Belongs(own'[f], f, d)))
  }

  lemma TakesPage(own: seq<Place>, own': seq<Place>, d: nat, f: nat, mapped: bool)
    requires f < |own| && own[f] == OnFreeList && Takes(own[f := Elsewhere], Unclaimed(own', f, mapped), d)
    requires mapped ==> f < |own'| && own'[f].UserOf? && own'[f].d == d
    ensures if mapped then Takes(own, own', d) else Takes(own[f := Elsewhere], own', d)
  {
    if mapped {
      forall g | 0 <= g < |own| ensures own'[g] == own[g] || (own[g] == OnFreeList && Belongs(own'[g], g, d)) {
        assert g != f ==> Unclaimed(own', f, mapped)[g] == own'[g];
      }
    }
  }

  lemma TakesThen(own: seq<Place>, own1: seq<Place>, own2: seq<Place>, d: nat)
    requires Takes(own, own1, d) && Takes(own1, own2, d)
    ensures Takes(own, own2, d)
  {
  }

  lemma KeepsThen(m: Mem, own: seq<Place>, m1: Mem, own1: seq<Place>, m2: Mem, own2: seq<Place>, d: nat)
    requires Keeps(m, own, m1, own1, d) && Keeps(m1, own1, m2, own2, d)
    ensures Keeps(m, own, m2, own2, d)
  {
  }

  /** A page of ones whose first word links to the next free page. */
  function Junk(next: Word): (r: Page)
    ensures r[0] == next
  {
    seq(1024, k => if k == 0 then next else 0x0101_0101)
  }

  class Memory {
    var mem: Mem
    var head: Word
    // frames below this hold the kernel and are never freed
    const first: nat
    ghost var free: seq<nat>
    ghost var own: seq<Place>
    ghost var dirs: set<nat>

    /** The free list is sound, and everything that is somewhere is above the kernel. */
    ghost predicate Listed()
      reads this
    {
      && FreeOk(mem, own, head, free) && first > 0
      && (forall f :: 0 <= f < |own| && own[f] != Elsewhere ==> f >= first)
    }

    ghost predicate Valid()
      reads this
    {
      Wf(mem, own, dirs) && Listed()
    }

    /** No page is free and none is anywhere. */
    constructor (pages: Mem, firstFree: nat)
      requires |pages| <= 0x8_0000 && firstFree > 0
      ensures Valid() && first == firstFree && mem == pages && free == [] && dirs == {}
      ensures forall f :: 0 <= f < |own| ==> own[f] == Elsewhere
    {
      mem, head, first := pages, 0, firstFree;
      free, own, dirs := [], seq(|pages|, _ => Elsewhere), {};
    }

    /** Hands the pages from lo to hi to the allocator. */
    method Freerange(lo: nat, hi: nat)
      requires Valid() && first <= lo <= hi <= |mem|
      requires forall f :: lo <= f < hi ==> own[f] == Elsewhere
      modifies this
      ensures Valid() && dirs == old(dirs) && |own| == |old(own)|
      ensures forall f :: 0 <= f < |own| ==> own[f] == if lo <= f < hi then OnFreeList else old(own)[f]
      ensures |free| == |old(free)| + (hi - lo)
    {
      var p := lo;
      while p + 1 <= hi
        invariant lo <= p <= hi && Valid() && dirs == old(dirs) && |own| == |old(own)|
        invariant |free| == |old(free)| + (p - lo)
        invariant forall f :: 0 <= f < |own| ==> own[f] == if lo <= f < p then OnFreeList else old(own)[f]
      {
        Drop(p);
        p := p + 1;
      }
    }

    /** Takes the first page of the free list; fails exactly when it is empty. */
    method Kalloc() returns (r: Option<nat>)
      requires Valid()
      modifies `head, `free, `own
      ensures Valid()
      ensures r.None? <==> old(free) == []
      ensures r.None? ==> own == old(own) && free == old(free)
      ensures r.Some? ==> first <= r.value < |mem| && old(free) == [r.value] + free
      ensures r.Some? ==> old(own)[r.value] == OnFreeList && own == old(own)[r.value := Elsewhere]
    {
      if head == 0 {
        return None;
      }
      PopOk(mem, own, head, free);
      var f := FrameAt(head);
      LooseChange(mem, own, dirs, mem, own[f := Elsewhere]);
      head := mem[f][0];
      own, free := own[f := Elsewhere], free[1..];
      return Some(f);
    }

    /** The test at the head of kfree: not the address of a page, below the end of the kernel or past PHYSTOP. */
    predicate NoPage(v: Word)
      reads this
    {
      v % 4096 != 0 || v < 0x8000_0000 + 4096 * first || v >= 0x8000_0000 + 4096 * |mem|
    }

    /** Puts the page at v, if it is one, on the free list, filled with ones; it must not be there already. */
    method Kfree(v: Word) returns (r: Outcome<()>)
      requires Listed() && (!NoPage(v) ==> own[FrameAt(v)] != OnFreeList)
      modifies `mem, `head, `free, `own
      ensures Listed() && r == if old(NoPage(v)) then Panic else Done(())
      ensures r.Panic? ==> mem == old(mem) && own == old(own) && free == old(free)
      ensures r.Done? ==> free == [FrameAt(v)] + old(free) && own == old(own)[FrameAt(v) := OnFreeList]
      ensures r.Done? ==> mem == old(mem)[FrameAt(v) := Junk(old(head))] && mem[FrameAt(v)][0] == old(head)
      ensures r.Done? ==> forall k :: 1 <= k < 1024 ==> mem[FrameAt(v)][k] == 0x0101_0101
    {
      if NoPage(v) {
        return Panic;
      }
      var f := FrameAt(v);
      PushOk(mem, own, head, free, f, Junk(head));
      mem := mem[f := Junk(head)];
      head := v;
      own, free := own[f := OnFreeList], [f] + free;
      return Done(());
    }

    /** memset(page, 0, PGSIZE) */
    method Clear(f: nat)
      requires Valid() && f < |mem| && own[f] == Elsewhere
      modifies `mem
      ensures Valid() && mem == old(mem)[f := ZeroPage()] && SameMaps(old(mem), mem, dirs)
    {
      LooseChange(mem, own, dirs, mem[f := ZeroPage()], own);
      FreeKept(mem, own, head, free, mem[f := ZeroPage()], own);
      mem := mem[f := ZeroPage()];
    }

    /**
      The table that maps page v, made if asked for and missing. No mapping changes. Fails exactly when
      there is none and none is wanted, or no page is left for one.
     */
    method Walkpgdir(d: nat, v: nat, alloc: bool) returns (r: Option<nat>)
      requires Valid() && d in dirs && v < PAGES
      modifies this
      ensures Valid() && dirs == old(dirs) && SameMaps(old(mem), mem, dirs)
      ensures Keeps(old(mem), old(own), mem, own, d) && Takes(old(own), own, d)
      ensures r.Some? ==> HasTable(mem, d, v / 1024) && r.value == FrameOf(mem[d][v / 1024])
      ensures r.None? <==> !HasTable(old(mem), d, v / 1024) && (!alloc || old(free) == [])
      ensures HasTable(old(mem), d, v / 1024) || r.None? ==> mem == old(mem) && own == old(own) && free == old(free)
      ensures r.Some? ==> |free| == |old(free)| - TableCost(old(mem), d, v) && OtherTables(old(mem), mem, d, v / 1024)
    {
      assert TableOk(mem, own, d, v / 1024);
      var e := mem[d][v / 1024];
      if Present(e) {
        return Some(FrameOf(e));
      }
      if !alloc {
        return None;
      }
      r := Kalloc();
      if r.None? {
        return;
      }
      Clear(r.value);
      LinkTable(d, v / 1024, r.value);
    }

    /** *pde = v2p(pgtab) | PTE_P | PTE_W | PTE_U */
    method LinkTable(d: nat, i: nat, t: nat)
      requires Valid() && d in dirs && i < 1024 && !Present(mem[d][i])
      requires first <= t < |mem| && own[t] == Elsewhere && mem[t] == ZeroPage()
      modifies `mem, `own
      ensures Valid() && SameMaps(old(mem), mem, dirs)
      ensures mem == WithTable(old(mem), d, i, t) && own == old(own)[t := TableOf(d, i)]
      ensures HasTable(mem, d, i) && FrameOf(mem[d][i]) == t
    {
      NewTable(mem, own, dirs, d, i, t);
      FreeKept(mem, own, head, free, WithTable(mem, d, i, t), own[t := TableOf(d, i)]);
      own := own[t := TableOf(d, i)];
      mem := mem[d := mem[d][i := Entry(t, 7)]];
    }

    /** Writes the entry of page v; the ghost map follows. */
    method WritePte(d: nat, v: nat, w: Word, ghost own': seq<Place>)
      requires Valid() && d in dirs && v < PAGES && HasTable(mem, d, v / 1024) && Handover(mem, own, own', d, v, w)
      requires forall f :: 0 <= f < |mem| ==> (own'[f] == OnFreeList <==> own[f] == OnFreeList)
      requires forall f :: 0 <= f < |own'| && own'[f] != Elsewhere ==> f >= first
      modifies `mem, `own
      ensures Valid() && own == own' && mem == SetPte(old(mem), d, v, w)
      ensures SameMapsBut(old(mem), mem, dirs, d, v) && Pte(mem, d, v) == w
    {
      SetPteWf(mem, own, dirs, d, v, w, own');
      assert TableOk(mem, own, d, v / 1024);
      FreeKept(mem, own, head, free, SetPte(mem, d, v, w), own');
      var t := FrameOf(mem[d][v / 1024]);
      own := own';
      mem := mem[t := mem[t][v % 1024 := w]];
    }

    /**
      One round of mappages. Panics exactly when the page is mapped already, and fails only when a table is
      missing and no page is left for it.
     */
    method MapPage(d: nat, v: nat, f: nat, perm: nat) returns (r: Outcome<()>)
      requires Valid() && d in dirs && v < PAGES && f < 0x10_0000 && perm < 4096
      requires v < USER_PAGES ==> first <= f < |mem| && own[f] == Elsewhere
      modifies this
      ensures Valid() && dirs == old(dirs)
      ensures r.Panic? <==> Present(old(Pte(mem, d, v)))
      ensures r.Error? <==> !Present(old(Pte(mem, d, v))) && |old(free)| < TableCost(old(mem), d, v)
      ensures r.Error? ==> free == []
      ensures r.Done? ==> |free| == |old(free)| - TableCost(old(mem), d, v)
      ensures OtherTables(old(mem), mem, d, v / 1024)
      ensures r.Done? ==> SameMapsBut(old(mem), mem, dirs, d, v) && Pte(mem, d, v) == Entry(f, perm)
      ensures r.Done? ==> HasTable(mem, d, v / 1024)
      ensures !r.Done? ==> SameMaps(old(mem), mem, dirs)
      ensures Keeps(old(mem), old(own), mem, Unclaimed(own, f, r.Done? && v < USER_PAGES), d)
      ensures Takes(old(own), Unclaimed(own, f, r.Done? && v < USER_PAGES), d)
      ensures r.Done? && v < USER_PAGES ==> f < |own| && own[f] == UserOf(d, v)
    {
      ghost var m0, own0 := mem, own;
      var t := Walkpgdir(d, v, true);
      if t.None? {
        return Error;
      }
      if Present(mem[t.value][v % 1024]) {
        return Panic;
      }
      ghost var m1, own1 := mem, own;
      Claim(d, v, f, perm);
      SameMapsButThen(m0, m1, mem, dirs, d, v);
      KeepsThen(m0, own0, m1, own1, mem, Unclaimed(own, f, v < USER_PAGES), d);
      return Done(());
    }

    /** *pte = pa | perm | PTE_P */
    method Claim(d: nat, v: nat, f: nat, perm: nat)
      requires Valid() && d in dirs && v < PAGES && f < 0x10_0000 && perm < 4096
      requires HasTable(mem, d, v / 1024) && !Present(Pte(mem, d, v))
      requires v < USER_PAGES ==> first <= f < |mem| && own[f] == Elsewhere
      modifies `mem, `own
      ensures Valid() && SameMapsBut(old(mem), mem, dirs, d, v) && Pte(mem, d, v) == Entry(f, perm)
      ensures mem[d] == old(mem)[d]
      ensures Keeps(old(mem), old(own), mem, Unclaimed(own, f, v < USER_PAGES), d)
      ensures Unclaimed(own, f, v < USER_PAGES) == old(own)
      ensures v < USER_PAGES ==> f < |own| && own[f] == UserOf(d, v)
    {
      ghost var own2 := if v < USER_PAGES then own[f := UserOf(d, v)] else own;
      MapHandover(mem, own, dirs, d, v, f, perm);
      assert TableOk(mem, own, d, v / 1024);
      WritePte(d, v, Entry(f, perm), own2);
    }

    /** Maps the pages from that of va to that of its last byte to consecutive frames from pf on. */
    method Mappages(d: nat, va: Word, size: Word, pf: nat, perm: nat) returns (r: Outcome<()>, ghost k: nat)
      requires Valid() && d in dirs && perm < 4096
      requires MapArgs(va / 4096, LastPage(va, size), pf)
      requires Unmapped(own, va / 4096, LastPage(va, size), pf, first)
      modifies this
      ensures Valid() && dirs == old(dirs)
      ensures MapResult(old(mem), old(own), mem, own, dirs, d, va / 4096, k, LastPage(va, size), pf, perm, first, r)
      ensures r.Error? ==> free == []
      ensures RangeCost(old(mem), old(|free|), mem, |free|, d, va / 4096, LastPage(va, size) + 1, r)
    {
      r, k := MapRange(d, va / 4096, LastPage(va, size), pf, perm);
    }

    /** The loop, in page numbers. */
    method MapRange(d: nat, a0: nat, last: nat, pf: nat, perm: nat) returns (r: Outcome<()>, ghost k: nat)
      requires Valid() && d in dirs && perm < 4096 && MapArgs(a0, last, pf)
      requires Unmapped(own, a0, last, pf, first)
      modifies this
      ensures Valid() && dirs == old(dirs)
      ensures MapResult(old(mem), old(own), mem, own, dirs, d, a0, k, last, pf, perm, first, r)
      ensures r.Error? ==> free == []
      ensures RangeCost(old(mem), old(|free|), mem, |free|, d, a0, last + 1, r)
    {
      var a, f := a0, pf;
      ghost var m0, own0, n0 := mem, own, |free|;
      k := a;
      MapStarts(m0, own0, dirs, d, a0, last, pf, perm, first);
      while true
        invariant a0 <= a <= last && f == pf + (a - a0) && k == a && Valid() && dirs == old(dirs)
        invariant MapAt(m0, own0, mem, own, dirs, d, a0, k, last, pf, perm, first)
        invariant MapCount(m0, n0, mem, |free|, d, a0, a)
        decreases last - a
      {
        r, k := MapStep(m0, own0, n0, d, a0, a, last, pf, f, perm);
        if !r.Done? {
          return;
        }
        if a == last {
          break;
        }
        a, f := a + 1, f + 1;
      }
    }

    /** One round, and what it costs. */
    method MapStep(ghost m0: Mem, ghost own0: seq<Place>, ghost n0: nat, d: nat, ghost a0: nat, a: nat,
                   ghost last: nat, ghost pf: nat, f: nat, perm: nat)
      returns (r: Outcome<()>, ghost k: nat)
      requires Valid() && d in dirs && perm < 4096 && a0 <= a <= last && MapArgs(a0, last, pf) && f == pf + (a - a0)
      requires MapAt(m0, own0, mem, own, dirs, d, a0, a, last, pf, perm, first)
      requires MapCount(m0, n0, mem, |free|, d, a0, a)
      modifies this
      ensures Valid() && dirs == old(dirs)
      ensures MapAt(m0, own0, mem, own, dirs, d, a0, k, last, pf, perm, first) && k == if r.Done? then a + 1 else a
      ensures r.Panic? ==> Present(Pte(m0, d, a))
      ensures r.Error? ==> free == []
      ensures r.Done? ==> MapCount(m0, n0, mem, |free|, d, a0, a + 1)
      ensures !r.Done? || a == last ==> RangeCost(m0, n0, mem, |free|, d, a0, last + 1, r)
    {
      ghost var m1, n1 := mem, |free|;
      r, k := MapNext(m0, own0, d, a0, a, last, pf, f, perm);
      CountNext(m0, n0, m1, n1, mem, |free|, d, a0, a, last + 1, r);
    }

    method MapNext(ghost m0: Mem, ghost own0: seq<Place>, d: nat, ghost a0: nat, a: nat, ghost last: nat,
                   ghost pf: nat, f: nat, perm: nat)
      returns (r: Outcome<()>, ghost k: nat)
      requires Valid() && d in dirs && perm < 4096 && a0 <= a <= last && MapArgs(a0, last, pf) && f == pf + (a - a0)
      requires MapAt(m0, own0, mem, own, dirs, d, a0, a, last, pf, perm, first)
      modifies this
      ensures Valid() && dirs == old(dirs)
      ensures MapAt(m0, own0, mem, own, dirs, d, a0, k, last, pf, perm, first) && k == if r.Done? then a + 1 else a
      ensures r.Panic? ==> Present(Pte(m0, d, a))
      ensures r.Error? ==> free == []
      ensures PageCost(old(mem), old(|free|), mem, |free|, d, a, r)
    {
      ghost var m1, own1 := mem, own;
      r := MapPage(d, a, f, perm);
      k := if r.Done? then a + 1 else a;
      ClaimedNext(m0, own0, m1, own1, mem, own, d, a0, a, last, pf, first, r.Done?);
      TakesNext(own0, own1, own, d, a0, a, last, pf, first, r.Done?);
      if r.Done? {
        MappedNext(m0, m1, mem, dirs, d, a0, a, pf, perm);
      } else {
        MappedSame(m0, m1, mem, dirs, d, a0, a, pf, perm);
      }
    }

    /** One round of deallocuvm at a page with a table: frees the page, if present, and clears its entry. */
    method FreePage(d: nat, v: nat)
      requires Valid() && d in dirs && v < USER_PAGES && HasTable(mem, d, v / 1024)
      modifies this
      ensures Valid() && dirs == old(dirs)
      ensures PageFreed(old(mem), old(own), mem, own, dirs, d, v)
    {
      ghost var m0, own0 := mem, own;
      var t := FrameOf(mem[d][v / 1024]);
      var e := mem[t][v % 1024];
      assert e == Pte(mem, d, v) && TableOk(mem, own, d, v / 1024);
      if Present(e) {
        DropPage(d, v, t, FrameOf(e));
      } else {
        NotMapped(m0, own0, dirs, d, v);
      }
    }

    /** The page is freed first, then its entry in table t is cleared. */
    method DropPage(d: nat, v: nat, t: nat, f: nat)
      requires Valid() && d in dirs && v < USER_PAGES && HasTable(mem, d, v / 1024)
      requires t == FrameOf(mem[d][v / 1024]) && Present(Pte(mem, d, v)) && f == FrameOf(Pte(mem, d, v))
      modifies this
      ensures Valid() && dirs == old(dirs)
      ensures PageFreed(old(mem), old(own), mem, own, dirs, d, v)
    {
      ghost var m0, own0 := mem, own;
      assert TableOk(mem, own, d, v / 1024);
      UnmapWf(mem, own, dirs, d, v, Junk(head));
      assert FrameAt(Kva(f)) == f && !NoPage(Kva(f));
      var r := Kfree(Kva(f));
      ghost var m1, own1 := mem, own;
      mem := mem[t := mem[t][v % 1024 := 0]];
      FreeKept(m1, own1, head, free, mem, own);
      assert mem == SetPte(m0[f := m1[f]], d, v, 0);
      UserPlace(m0, own0, dirs, d, v);
    }

    /** One round of the sweep: frees a page, or jumps over the rest of a missing table and as much of the next. */
    method SweepStep(ghost m0: Mem, ghost own0: seq<Place>, d: nat, ghost a0: nat, ghost end: nat, a: nat)
      returns (a': nat)
      requires Valid() && d in dirs && a < end <= USER_PAGES
      requires SweepAt(m0, d, a0, a) && SweptTo(m0, own0, mem, own, dirs, d, a0, end, a)
      modifies this
      ensures Valid() && dirs == old(dirs) && a' > a
      ensures SweepAt(m0, d, a0, a') && SweptTo(m0, own0, mem, own, dirs, d, a0, end, a')
    {
      a' := a;
      var t := Walkpgdir(d, a, false);
      SameTables(m0, mem, d, a / 1024);
      if t.None? {
        SweepJump(m0, d, a0, end, a);
        SweptSkip(m0, own0, mem, own, dirs, d, a0, end, a, a + 1024);
        a' := a' + 1023;
      } else {
        ghost var m1, own1 := mem, own;
        SweepPage(m0, d, a0, end, a);
        FreePage(d, a);
        SweptNext(m0, own0, m1, own1, mem, own, dirs, d, a0, end, a);
      }
      a' := a' + 1;
    }

    /** Frees and unmaps exactly the pages the sweep visits between the two sizes. */
    method Deallocuvm(d: nat, oldsz: Word, newsz: Word) returns (r: Word)
      requires Valid() && d in dirs && oldsz <= 0x8000_0000
      modifies this
      ensures Valid() && dirs == old(dirs)
      ensures r == if newsz >= oldsz then oldsz else newsz
      ensures newsz >= oldsz ==> mem == old(mem) && own == old(own) && free == old(free)
      ensures newsz < oldsz ==>
        SweptTo(old(mem), old(own), mem, own, dirs, d, PageUp(newsz), PageUp(oldsz), PageUp(oldsz))
    {
      if newsz >= oldsz {
        return oldsz;
      }
      ghost var m0, own0, a0, end := mem, own, PageUp(newsz), PageUp(oldsz);
      var a := PageUp(newsz);
      SweptNothing(m0, own0, dirs, d, a0, end);
      while 4096 * a < oldsz
        invariant Valid() && dirs == old(dirs)
        invariant SweepAt(m0, d, a0, a) && SweptTo(m0, own0, mem, own, dirs, d, a0, end, a)
      {
        a := SweepStep(m0, own0, d, a0, end, a);
      }
      SweptEnd(m0, own0, mem, own, dirs, d, a0, end, a);
      return newsz;
    }

    /** Frees a page that is in no address space. */
    method Drop(f: nat)
      requires Valid() && first <= f < |mem| && own[f] == Elsewhere
      modifies this
      ensures Valid() && dirs == old(dirs) && own == old(own)[f := OnFreeList] && free == [f] + old(free)
      ensures |mem| == |old(mem)| && forall g :: 0 <= g < |mem| && g != f ==> mem[g] == old(mem)[g]
    {
      ghost var m0, own0 := mem, own;
      assert FrameAt(Kva(f)) == f && !NoPage(Kva(f));
      var r := Kfree(Kva(f));
      LooseChange(m0, own0, dirs, mem, own);
    }

    /** Frees the directory, its tables and its user pages, each once, and nothing else. */
    method Freevm(d: nat)
      requires Valid() && d in dirs
      modifies this
      ensures Valid() && dirs == old(dirs) - {d}
      ensures SpaceFreed(old(mem), old(own), mem, own, d)
    {
      ghost var m0, own0 := mem, own;
      FreeUsers(d);
      ghost var m1, own1, dirs1 := mem, own, dirs;
      DropDirectory(mem, own, dirs, d);
      FreeKept(mem, own, head, free, mem, Disowned(own, d));
      own, dirs := Disowned(own, d), dirs - {d};
      FreeTables(m1, own1, dirs1, d);
      Drop(d);
      FreedSpace(m0, own0, m1, own1, mem, own, dirs1, d);
    }

    /** The user pages. */
    method FreeUsers(d: nat)
      requires Valid() && d in dirs
      modifies this
      ensures Valid() && dirs == old(dirs) && UsersFreed(old(mem), old(own), mem, own, d)
    {
      ghost var m0, own0 := mem, own;
      var sz := Deallocuvm(d, 0x8000_0000, 0);
      AllSwept(m0, own0, mem, own, dirs, d);
    }

    /** The tables of a directory that no longer counts as one. */
    method FreeTables(ghost m1: Mem, ghost own1: seq<Place>, ghost dirs1: set<nat>, d: nat)
      requires Valid() && Wf(m1, own1, dirs1) && d in dirs1 && TablesFreed(m1, own1, mem, own, d, 0)
      requires forall f :: 0 <= f < |own1| && own1[f] != Elsewhere ==> f >= first
      modifies this
      ensures Valid() && dirs == old(dirs) && TablesFreed(m1, own1, mem, own, d, 1024)
    {
      var i := 0;
      while i < 1024
        invariant 0 <= i <= 1024 && Valid() && dirs == old(dirs) && TablesFreed(m1, own1, mem, own, d, i)
      {
        ghost var m2, own2 := mem, own;
        TablePlace(m1, own1, dirs1, d, i);
        if Present(mem[d][i]) {
          Drop(FrameOf(mem[d][i]));
        }
        TableFreed(m1, own1, dirs1, m2, own2, mem, own, d, i);
        i := i + 1;
      }
    }

    /**
      A directory with the kernel mapped and no user page; it takes 65 pages, and fails exactly when fewer are
      free. Then the pages taken so far stay out of reach, in no address space, and none is left free.
     */
    method Setupkvm(data: nat) returns (r: Outcome<nat>)
      requires Valid() && DataOk(data)
      modifies this
      ensures Valid() && KeepsAll(old(mem), old(own), mem, own)
      ensures !r.Panic? && (r.Error? ==> dirs == old(dirs) && free == [])
      ensures r.Done? <==> |old(free)| >= 65
      ensures r.Done? ==> |free| == |old(free)| - 65 && forall i :: 0 <= i < 512 ==> !HasTable(mem, r.value, i)
      ensures r.Done? ==> r.value !in old(dirs) && dirs == old(dirs) + {r.value}
      ensures r.Done? ==> r.value < |old(own)| && old(own)[r.value] == OnFreeList
      ensures r.Done? ==> KernelMapped(mem, r.value, data) && Takes(old(own), own, r.value)
      ensures r.Done? ==> forall v :: 0 <= v < 0x8_0000 ==> !Present(Pte(mem, r.value, v))
    {
      ghost var m0, own0, dirs0 := mem, own, dirs;
      r := NewPgdir(data);
      if r.Error? {
        return;
      }
      var d := r.value;
      var k, map4 := 0, Kmaps(data);
      while k < 4
        invariant 0 <= k <= 4 && Valid() && dirs == dirs0 + {d}
        invariant KeepsAll(m0, own0, mem, own) && KernelOnly(mem, d, data, k)
        invariant KernelTables(mem, d, data, k) && |free| + TablesOfRows(data, k) + 1 == |old(free)|
        invariant Takes(own0, own, d)
      {
        ghost var m1, own1 := mem, own;
        var ok := MapRow(d, map4[k], data, k);
        TakesThen(own0, own1, own, d);
        KeepsAllThen(m0, own0, dirs0, m1, own1, mem, own, d);
        if !ok {
          Abandon(m0, own0, dirs0, d);
          return Error;
        }
        k := k + 1;
      }
      KernelIs(mem, d, data);
      return Done(d);
    }

    /** One row of kmap: it cannot meet a page that is already mapped. */
    method MapRow(d: nat, e: Kmap, ghost data: nat, ghost k: nat) returns (ok: bool)
      requires Valid() && d in dirs && DataOk(data) && k < 4 && e == Kmaps(data)[k] && KernelOnly(mem, d, data, k)
      requires KernelTables(mem, d, data, k)
      modifies this
      ensures Valid() && dirs == old(dirs) && Keeps(old(mem), old(own), mem, own, d) && Takes(old(own), own, d)
      ensures if ok then KernelOnly(mem, d, data, k + 1) else free == []
      ensures ok <==> |old(free)| >= RowCost(data, k)
      ensures ok ==> |free| == |old(free)| - RowCost(data, k) && KernelTables(mem, d, data, k + 1)
    {
      ghost var m1, own1 := mem, own;
      KmapArgs(data, k);
      RowNeed(mem, d, data, k);
      var res, done := Mappages(d, 4096 * e.virt, 4096 * Count(e), e.phys, e.perm);
      ok := res.Done?;
      RowDone(m1, own1, mem, own, dirs, d, data, k, done, first, res);
      if ok {
        RowTables(m1, mem, d, data, k);
      }
    }

    /** An empty directory in a page from the free list. */
    method NewPgdir(ghost data: nat) returns (r: Outcome<nat>)
      requires Valid() && DataOk(data)
      modifies this
      ensures Valid() && KeepsAll(old(mem), old(own), mem, own) && !r.Panic?
      ensures r.Error? ==> free == [] && dirs == old(dirs)
      ensures r.Error? <==> old(free) == []
      ensures r.Done? ==> |free| == |old(free)| - 1 && r.value < |mem| && mem[r.value] == ZeroPage()
      ensures r.Done? ==> Takes(old(own), own, r.value)
      ensures r.Done? ==> r.value !in old(dirs) && dirs == old(dirs) + {r.value}
      ensures r.Done? ==> r.value < |old(own)| && old(own)[r.value] == OnFreeList && KernelOnly(mem, r.value, data, 0)
    {
      var page := Kalloc();
      if page.None? {
        return Error;
      }
      var d := page.value;
      Clear(d);
      NewDirectory(mem, own, dirs, d);
      FreeKept(mem, own, head, free, mem, own[d := Directory]);
      own, dirs := own[d := Directory], dirs + {d};
      return Done(d);
    }

    /** The directory is lost without being freed. */
    ghost method Abandon(m0: Mem, own0: seq<Place>, dirs0: set<nat>, d: nat)
      requires Valid() && d in dirs
      requires Wf(m0, own0, dirs0) && KeepsAll(m0, own0, mem, own) && d < |m0| && own0[d] == OnFreeList
      modifies `own, `dirs
      ensures Valid() && dirs == old(dirs) - {d} && KeepsAll(m0, own0, mem, own)
    {
      DropDirectory(mem, own, dirs, d);
      FreeKept(mem, own, head, free, mem, Disowned(own, d));
      DisownKeeps(m0, own0, dirs0, mem, own, d);
      own, dirs := Disowned(own, d), dirs - {d};
    }

    /**
      A new address space whose pages below sz have the flags and contents of those of d, in frames of
      their own, and whose other user pages are absent. It panics at the first page that is absent in d, and fails when
      the pages run out before that; what it takes is known beforehand. If it fails, all it mapped is freed again.
     */
    method Copyuvm(d: nat, sz: Word, data: nat) returns (r: Outcome<nat>)
      requires Valid() && d in dirs && sz <= 0x8000_0000 && DataOk(data)
      modifies this
      ensures Valid() && KeepsAll(old(mem), old(own), mem, own) && SameMaps(old(mem), mem, old(dirs))
      ensures !r.Done? ==> dirs == old(dirs)
      ensures CopyEnds(old(mem), d, PageUp(sz), |old(free)|, r)
      ensures r.Done? ==> |free| == |old(free)| - CopyCost(PageUp(sz))
      ensures r.Error? && |old(free)| >= 65 ==> GivenBack(old(own), own, LosesOne(|old(free)|))
      ensures r.Done? ==> r.value !in old(dirs) && dirs == old(dirs) + {r.value}
      ensures r.Done? ==> Copied(mem, own, d, r.value, PageUp(sz)) && KernelMapped(mem, r.value, data)
    {
      ghost var m0, own0, dirs0 := mem, own, dirs;
      r := Setupkvm(data);
      if !r.Done? {
        KeepsMaps(m0, own0, dirs0, mem, own);
        CopyRefused(m0, d, PageUp(sz), |old(free)|);
        return;
      }
      var c, i := r.value, 0;
      while 4096 * i < sz
        invariant 0 <= i <= PageUp(sz) && Valid() && dirs == dirs0 + {c}
        invariant KeepsAll(m0, own0, mem, own) && Copied(mem, own, d, c, i) && KernelMapped(mem, c, data)
        invariant UserTables(mem, c, i) && |free| + CopyCost(i) == |old(free)| && Takes(own0, own, c)
      {
        ghost var m1, own1, n1 := mem, own, |free|;
        KeepsMaps(m0, own0, dirs0, m1, own1);
        ghost var lost;
        r, lost := CopyPage(d, c, i);
        KernelKept(m1, mem, c, data);
        KeepsAllThen(m0, own0, dirs0, m1, own1, mem, own, c);
        CopyStep(m0, m1, own1, n1, mem, d, c, i, PageUp(sz), |old(free)|, r);
        if r.Panic? {
          Abandon(m0, own0, dirs0, c);
          KeepsMaps(m0, own0, dirs0, mem, own);
          return;
        }
        if r.Error? {
          ghost var m2, own2 := mem, own;
          Freevm(c);
          SpaceFreedKeeps(m0, own0, dirs0, m2, own2, mem, own, c);
          KeepsMaps(m0, own0, dirs0, mem, own);
          SpaceReturned(m0, own0, dirs0, own1, m2, own2, mem, own, c, lost);
          LosesExactly(|old(free)|, i, n1, TableCost(m1, c, i));
          return;
        }
        TakesThen(own0, own1, own, c);
        i := i + 1;
      }
      KeepsMaps(m0, own0, dirs0, mem, own);
      CopyComplete(m0, mem, own, d, c, PageUp(sz));
      return Done(c);
    }

    /** One round: a page of its own for the copy of page i. */
    method CopyPage(d: nat, c: nat, i: nat) returns (r: Outcome<nat>, ghost lost: Option<nat>)
      requires Valid() && d in dirs && c in dirs && d != c && i < USER_PAGES && Copied(mem, own, d, c, i)
      modifies this
      ensures Valid() && dirs == old(dirs)
      ensures Keeps(old(mem), old(own), mem, own, c)
      ensures r.Panic? <==> !Present(old(Pte(mem, d, i)))
      ensures r.Done? ==> Copied(mem, own, d, c, i + 1)
      ensures SameKernel(old(mem), mem, c)
      ensures r.Error? ==> |old(free)| < 1 + TableCost(old(mem), c, i)
      ensures r.Done? ==> |free| == |old(free)| - 1 - TableCost(old(mem), c, i)
      ensures r.Done? ==> OtherTables(old(mem), mem, c, i / 1024) && HasTable(mem, c, i / 1024)
      ensures CanLose(old(own), lost) && Takes(Losing(old(own), lost), own, c)
      ensures lost.Some? <==> r.Error? && old(free) != []
    {
      ghost var m0, own0 := mem, own;
      var e := UserEntry(d, i);
      if e.None? {
        return Panic, None;
      }
      var page := Kalloc();
      if page.None? {
        return Error, None;
      }
      var f := page.value;
      Memmove(f, FrameOf(e.value));
      ghost var m1, own1 := mem, own;
      CopiedKept(m0, own0, m1, own1, dirs, d, c, i);
      r := MapCopy(d, c, i, f, e.value);
      KeepsThen(m0, own0, m1, own1, mem, Unclaimed(own, f, r.Done?), c);
      lost := if r.Error? then Some(f) else None;
      TakesPage(own0, own, c, f, r.Done?);
    }

    /** The entry of a page that must be mapped. */
    method UserEntry(d: nat, i: nat) returns (e: Option<Word>)
      requires Valid() && d in dirs && i < USER_PAGES
      modifies this
      ensures Valid() && dirs == old(dirs) && mem == old(mem) && own == old(own) && free == old(free)
      ensures e == if Present(Pte(mem, d, i)) then Some(Pte(mem, d, i)) else None
      ensures e.Some? ==> FrameOf(e.value) < |mem| && own[FrameOf(e.value)] == UserOf(d, i)
    {
      var t := Walkpgdir(d, i, false);
      if t.None? {
        return None;
      }
      assert UserOk(mem, own, d, i);
      var w := mem[t.value][i % 1024];
      return if Present(w) then Some(w) else None;
    }

    /** Maps the filled page f with the flags of the original. */
    method MapCopy(d: nat, c: nat, i: nat, f: nat, e: Word) returns (r: Outcome<nat>)
      requires Valid() && d in dirs && c in dirs && d != c && i < USER_PAGES && Copied(mem, own, d, c, i)
      requires first <= f < |mem| && own[f] == Elsewhere && e == Pte(mem, d, i) && Present(e)
      requires FrameOf(e) < |mem| && own[FrameOf(e)] == UserOf(d, i) && mem[f] == mem[FrameOf(e)]
      modifies this
      ensures Valid() && dirs == old(dirs) && !r.Panic?
      ensures Keeps(old(mem), old(own), mem, Unclaimed(own, f, r.Done?), c)
      ensures Takes(old(own), Unclaimed(own, f, r.Done?), c) && (r.Done? ==> f < |own| && own[f] == UserOf(c, i))
      ensures r.Done? ==> Copied(mem, own, d, c, i + 1)
      ensures SameKernel(old(mem), mem, c)
      ensures r.Error? ==> |old(free)| < TableCost(old(mem), c, i)
      ensures r.Done? ==> |free| == |old(free)| - TableCost(old(mem), c, i)
      ensures r.Done? ==> OtherTables(old(mem), mem, c, i / 1024) && HasTable(mem, c, i / 1024)
    {
      ghost var m1, own1 := mem, own;
      EntryCopy(f, e);
      var ok := MapUser(c, i, f, FlagsOf(e));
      if !ok {
        return Error;
      }
      CopiedNext(m1, own1, mem, own, dirs, d, c, i, f);
      return Done(c);
    }

    method Memmove(dst: nat, src: nat)
      requires Valid() && dst < |mem| && src < |mem| && own[dst] == Elsewhere
      modifies `mem
      ensures Valid() && mem == old(mem)[dst := old(mem)[src]] && SameMaps(old(mem), mem, dirs)
    {
      LooseChange(mem, own, dirs, mem[dst := mem[src]], own);
      FreeKept(mem, own, head, free, mem[dst := mem[src]], own);
      mem := mem[dst := mem[src]];
    }

    /**
      Maps a zeroed page for each page between the sizes. With as many free pages as that needs, all of them
      are mapped. When the last page lacks only the page for its table, the code does not notice and reports
      success. With fewer it fails, and none of the pages is left mapped. Whatever was mapped before is untouched.
     */
    method Allocuvm(d: nat, oldsz: Word, newsz: Word) returns (r: Word)
      requires Valid() && d in dirs
      requires newsz < 0x8000_0000 ==> Vacant(mem, d, PageUp(oldsz), PageUp(newsz))
      modifies this
      ensures Valid() && dirs == old(dirs) && Keeps(old(mem), old(own), mem, own, d)
      ensures newsz >= 0x8000_0000 ==> r == 0 && mem == old(mem) && own == old(own)
      ensures newsz < oldsz && newsz < 0x8000_0000 ==> r == oldsz && mem == old(mem) && own == old(own)
      ensures oldsz <= newsz < 0x8000_0000 ==>
        AllocResult(old(mem), |old(free)|, mem, |free|, dirs, d, PageUp(oldsz), PageUp(newsz), newsz, r)
      ensures oldsz <= newsz < 0x8000_0000 ==> TablesOutside(old(mem), mem, d, PageUp(oldsz), PageUp(newsz))
    {
      if newsz >= 0x8000_0000 {
        return 0;
      }
      if newsz < oldsz {
        return oldsz;
      }
      r := GrowRange(d, oldsz, newsz);
    }

    /** deallocuvm after kalloc failed. */
    method UndoGrowth(d: nat, oldsz: Word, newsz: Word, ghost m0: Mem, ghost own0: seq<Place>, ghost n0: nat,
                      ghost a: nat, ghost k: nat)
      requires Valid() && d in dirs && oldsz <= newsz < 0x8000_0000 && free == []
      requires Wf(m0, own0, dirs) && Keeps(m0, own0, mem, own, d) && Vacant(m0, d, PageUp(oldsz), PageUp(newsz))
      requires a < PageUp(newsz) && AllocState(m0, n0, mem, 0, dirs, d, PageUp(oldsz), a, PageUp(newsz), k)
      modifies this
      ensures Valid() && dirs == old(dirs) && Keeps(m0, own0, mem, own, d)
      ensures old(d < |mem|) && d < |mem| && mem[d] == old(mem)[d]
      ensures AllocResult(m0, n0, mem, |free|, dirs, d, PageUp(oldsz), PageUp(newsz), newsz, 0)
    {
      ghost var m1, own1 := mem, own;
      var sz := Deallocuvm(d, newsz, oldsz);
      Undone(m0, own0, m1, own1, mem, own, dirs, d, PageUp(oldsz), k, PageUp(newsz));
      AllocFails(m0, n0, m1, dirs, d, PageUp(oldsz), a, PageUp(newsz), k);
    }

    method GrowRange(d: nat, oldsz: Word, newsz: Word) returns (r: Word)
      requires Valid() && d in dirs && oldsz <= newsz < 0x8000_0000
      requires Vacant(mem, d, PageUp(oldsz), PageUp(newsz))
      modifies this
      ensures Valid() && dirs == old(dirs) && Keeps(old(mem), old(own), mem, own, d)
      ensures AllocResult(old(mem), |old(free)|, mem, |free|, dirs, d, PageUp(oldsz), PageUp(newsz), newsz, r)
      ensures TablesOutside(old(mem), mem, d, PageUp(oldsz), PageUp(newsz))
    {
      ghost var m0, own0, n0, end := mem, own, |free|, PageUp(newsz);
      var a0 := PageUp(oldsz);
      var a := a0;
      ghost var k := a0;
      while 4096 * a < newsz
        invariant Valid() && dirs == old(dirs) && Keeps(m0, own0, mem, own, d)
        invariant AllocState(m0, n0, mem, |free|, dirs, d, a0, a, end, k) && TablesOutside(m0, mem, d, a0, a)
      {
        ghost var m1, own1, n1 := mem, own, |free|;
        var ok, mapped := AllocPage(d, a);
        if !ok {
          UndoGrowth(d, oldsz, newsz, m0, own0, n0, a, k);
          return 0;
        }
        KeepsThen(m0, own0, m1, own1, mem, own, d);
        OutsideNext(m0, m1, mem, d, a0, a);
        AllocNext(m0, n0, m1, own1, n1, mem, own, |free|, dirs, d, a0, a, end, mapped);
        if mapped {
          k := k + 1;
        }
        a := a + 1;
      }
      AllocEnds(m0, n0, mem, |free|, dirs, d, a0, a, end, k, newsz);
      return newsz;
    }

    /** One round: a zeroed page, mapped at a unless there is no page for the table, which goes unnoticed. */
    method AllocPage(d: nat, a: nat) returns (ok: bool, mapped: bool)
      requires Valid() && d in dirs && a < USER_PAGES && !Present(Pte(mem, d, a))
      modifies this
      ensures Valid() && dirs == old(dirs) && Keeps(old(mem), old(own), mem, own, d)
      ensures ok <==> old(free) != []
      ensures !ok ==> mem == old(mem) && own == old(own) && free == old(free)
      ensures ok && mapped ==> SameMapsBut(old(mem), mem, dirs, d, a) && ZeroMapped(mem, d, a)
      ensures ok && !mapped ==> SameMaps(old(mem), mem, dirs) && free == []
      ensures mapped <==> |old(free)| >= 1 + TableCost(old(mem), d, a)
      ensures mapped ==> |free| == |old(free)| - 1 - TableCost(old(mem), d, a)
      ensures OtherTables(old(mem), mem, d, a / 1024)
    {
      ghost var m0, own0 := mem, own;
      var page := Kalloc();
      if page.None? {
        return false, false;
      }
      var f := page.value;
      Clear(f);
      ghost var m1, own1 := mem, own;
      EntryFields(f, 6);
      mapped := MapUser(d, a, f, 6);
      KeepsClaim(m0, own0, m1, own1, mem, own, d, f, mapped);
      return true, mapped;
    }

    /** mappages for one user page that is not mapped yet. */
    method MapUser(d: nat, v: nat, f: nat, perm: nat) returns (ok: bool)
      requires Valid() && d in dirs && v < USER_PAGES && !Present(Pte(mem, d, v)) && perm < 4096
      requires first <= f < |mem| && own[f] == Elsewhere
      modifies this
      ensures Valid() && dirs == old(dirs) && Keeps(old(mem), old(own), mem, Unclaimed(own, f, ok), d)
      ensures Takes(old(own), Unclaimed(own, f, ok), d)
      ensures ok ==> SameMapsBut(old(mem), mem, dirs, d, v) && Pte(mem, d, v) == Entry(f, perm)
      ensures ok ==> f < |own| && own[f] == UserOf(d, v)
      ensures !ok ==> SameMaps(old(mem), mem, dirs) && free == []
      ensures ok <==> |old(free)| >= TableCost(old(mem), d, v)
      ensures OtherTables(old(mem), mem, d, v / 1024) && (ok ==> |free| == |old(free)| - TableCost(old(mem), d, v))
    {
      ghost var m0 := mem;
      LastOfRun(v, 1);
      var r, k := Mappages(d, 4096 * v, 4096, f, perm);
      MappedOne(m0, mem, dirs, d, v, k, f, perm);
      OneTable(m0, mem, d, v);
      assert Unclaim(own, f, UserCount(v, k)) == Unclaimed(own, f, r.Done?);
      return r.Done?;
    }
  }

  /** With one free page and an empty directory, allocuvm reports 4096 bytes and maps none. */
  method LastPageMissing() returns (m: Memory, d: nat, r: Word)
    ensures fresh(m) && m.Valid() && d in m.dirs && r == 4096 && !Present(Pte(m.mem, d, 0))
  {
    m := new Memory([ZeroPage(), ZeroPage(), ZeroPage()], 1);
    m.Freerange(1, 3);
    var data := 0x8_0200;
    var dir := m.NewPgdir(data);
    d := dir.value;
    assert !HasTable(m.mem, d, 0);
    assert Need(m.mem, d, 0, 1) == 2;
    r := m.Allocuvm(d, 0, 4096);
  }

  /**
    A page is mapped at 4 MB in an empty directory. Cut down to 4096 bytes, the sweep jumps from the missing first
    table to page 1025, and the page stays mapped.
   */
  method SweepMisses() returns (m: Memory, d: nat, r: Word)
    ensures fresh(m) && m.Valid() && d in m.dirs && r == 4096 && Present(Pte(m.mem, d, 1024))
  {
    m := new Memory([ZeroPage(), ZeroPage(), ZeroPage(), ZeroPage()], 1);
    m.Freerange(1, 4);
    var data := 0x8_0200;
    var dir := m.NewPgdir(data);
    d := dir.value;
    assert !HasTable(m.mem, d, 0) && !HasTable(m.mem, d, 1);
    assert Need(m.mem, d, 1024, 1024) == 0 && Need(m.mem, d, 1024, 1025) == 2;
    r := m.Allocuvm(d, 0x40_0000, 0x40_1000);
    assert Blank(m.mem, d, 0, 1) && !Swept(m.mem, d, 1, 1025, 1024);
    assert ZeroMapped(m.mem, d, 1024);
    r := m.Deallocuvm(d, 0x40_1000, 4096);
  }

  /** With ten free pages setupkvm fails, and they are gone: no page is free and none is in an address space. */
  method SetupLosesAll() returns (m: Memory, r: Outcome<nat>)
    ensures fresh(m) && m.Valid() && r.Error? && m.free == [] && m.dirs == {} && |m.mem| == 11
  {
    m := new Memory(seq(11, _ => ZeroPage()), 1);
    m.Freerange(1, 11);
    r := m.Setupkvm(0x8_0200);
  }

  /** A process of one page and 66 free pages: the copy fails for want of one, and a page is lost. */
  method CopyLosesPage() returns (m: Memory, r: Outcome<nat>, ghost before: seq<Place>)
    ensures fresh(m) && m.Valid() && r.Error? && GivenBack(before, m.own, true)
  {
    m := new Memory(seq(70, _ => ZeroPage()), 1);
    m.Freerange(1, 70);
    var data := 0x8_0200;
    var dir := m.NewPgdir(data);
    var d := dir.value;
    assert !HasTable(m.mem, d, 0);
    assert Need(m.mem, d, 0, 0) == 0 && Need(m.mem, d, 0, 1) == 2;
    var sz := m.Allocuvm(d, 0, 4096);
    assert |m.free| == 66 && ZeroMapped(m.mem, d, 0);
    before := m.own;
    assert CopyCost(0) == 65 && CopyCost(1) == 67;
    r := m.Copyuvm(d, 4096, data);
    assert LosesOne(66) by {
      assert 0 % 1024 == 0 && 66 == CopyCost(0) + 1;
    }
  }

  /** Pages a new mapping of page v takes beside its own: one if its table is missing. */
  function TableCost(m: Mem, d: nat, v: nat): nat {
    if HasTable(m, d, v / 1024) then 0 else 1
  }

  /** Every directory entry of d but the j-th is as before. */
  ghost predicate OtherTables(m: Mem, m': Mem, d: nat, j: nat) {
    d < |m| == |m'| && forall i :: 0 <= i < 1024 && i != j ==> m'[d][i] == m[d][i]
  }

  /** What mapping one page takes from n free pages. */
  ghost predicate PageCost(m: Mem, n: nat, m': Mem, n': nat, d: nat, v: nat, r: Outcome<()>) {
    && OtherTables(m, m', d, v / 1024) && (r.Done? ==> n' == n - TableCost(m, d, v))
    && (r.Error? ==> n < TableCost(m, d, v))
    && (r.Done? ==> n >= TableCost(m, d, v) && HasTable(m', d, v / 1024))
  }

  /** Tables missing for the pages from a to end. */
  ghost function TableNeed(m: Mem, d: nat, a: nat, end: nat): nat {
    if end <= a then 0 else TableNeed(m, d, a, end - 1) + (if NewRegion(m, d, a, end - 1) then 1 else 0)
  }

  /** What mapping the pages from a to end takes from n free pages; it fails only when there are too few. */
  ghost predicate RangeCost(m: Mem, n: nat, m': Mem, n': nat, d: nat, a: nat, end: nat, r: Outcome<()>) {
    && TablesOutside(m, m', d, a, end)
    && (r.Done? ==> n' + TableNeed(m, d, a, end) == n && TablesIn(m', d, a, end))
    && (r.Error? ==> n < TableNeed(m, d, a, end))
  }

  /** The loop of mappages at page a. */
  ghost predicate MapCount(m0: Mem, n0: nat, m: Mem, n: nat, d: nat, a0: nat, a: nat) {
    && n + TableNeed(m0, d, a0, a) == n0 && TablesBeyond(m0, m, d, a0, a) && TablesOutside(m0, m, d, a0, a)
    && TablesIn(m, d, a0, a)
  }

  /** Every region with a page from a to end has a table. */
  ghost predicate TablesIn(m: Mem, d: nat, a: nat, end: nat) {
    forall i :: 0 <= i < 1024 && a < end && a < 1024 * i + 1024 && 1024 * i < end ==> HasTable(m, d, i)
  }

  lemma OneTable(m: Mem, m': Mem, d: nat, v: nat)
    requires v < 0x10_0000 && TablesOutside(m, m', d, v, v + 1)
    ensures TableNeed(m, d, v, v + 1) == TableCost(m, d, v) && OtherTables(m, m', d, v / 1024)
  {
    assert TableNeed(m, d, v, v) == 0;
    forall i | 0 <= i < 1024 && i != v / 1024 ensures m'[d][i] == m[d][i] {
      assert 1024 * i + 1024 <= v || v + 1 <= 1024 * i;
    }
  }

  lemma {:induction false} TableNeedGrows(m: Mem, d: nat, a: nat, k: nat, end: nat)
    requires k <= end
    ensures TableNeed(m, d, a, k) <= TableNeed(m, d, a, end)
    decreases end
  {
    if k < end {
      TableNeedGrows(m, d, a, k, end - 1);
    }
  }

  lemma TableMissing(m0: Mem, m: Mem, d: nat, a0: nat, a: nat)
    requires a0 <= a < 0x10_0000 && TablesBeyond(m0, m, d, a0, a) && TablesIn(m, d, a0, a)
    ensures !HasTable(m, d, a / 1024) <==> NewRegion(m0, d, a0, a)
  {
    var i := a / 1024;
    assert 1024 * i <= a < 1024 * i + 1024;
    if a > a0 && a % 1024 != 0 {
      assert 1024 * i < a && HasTable(m, d, i);
    } else if a > a0 {
      assert 1024 * i >= a;
    }
  }

  lemma TablesInNext(m: Mem, m': Mem, d: nat, a0: nat, a: nat)
    requires a0 <= a && TablesIn(m, d, a0, a) && OtherTables(m, m', d, a / 1024) && HasTable(m', d, a / 1024)
    ensures TablesIn(m', d, a0, a + 1)
  {
    forall i | 0 <= i < 1024 && a0 < 1024 * i + 1024 && 1024 * i < a + 1 ensures HasTable(m', d, i) {
      if i != a / 1024 {
        assert 1024 * i < a && HasTable(m, d, i);
      }
    }
  }

  lemma CountNext(m0: Mem, n0: nat, m: Mem, n: nat, m': Mem, n': nat, d: nat, a0: nat, a: nat, end: nat,
                  r: Outcome<()>)
    requires a0 <= a < end <= 0x10_0000 && MapCount(m0, n0, m, n, d, a0, a) && PageCost(m, n, m', n', d, a, r)
    ensures r.Done? ==> MapCount(m0, n0, m', n', d, a0, a + 1)
    ensures !r.Done? || a + 1 == end ==> RangeCost(m0, n0, m', n', d, a0, end, r)
  {
    TableMissing(m0, m, d, a0, a);
    OutsideNext(m0, m, m', d, a0, a);
    if r.Done? {
      TablesNext(m0, m, m', d, a0, a);
      TablesInNext(m, m', d, a0, a);
    } else {
      TableNeedGrows(m0, d, a0, a + 1, end);
    }
  }

  /** Page v is the first of the range from a to need a table that is missing. */
  predicate NewRegion(m: Mem, d: nat, a: nat, v: nat) {
    !HasTable(m, d, v / 1024) && (v == a || v % 1024 == 0)
  }

  /** Free pages needed to map the pages from a to end: one each, and one for each missing table. */
  ghost function Need(m: Mem, d: nat, a: nat, end: nat): nat {
    if end <= a then 0 else Need(m, d, a, end - 1) + 1 + (if NewRegion(m, d, a, end - 1) then 1 else 0)
  }

  lemma {:induction false} NeedGrows(m: Mem, d: nat, a: nat, k: nat, end: nat)
    requires a <= k <= end
    ensures Need(m, d, a, end) >= Need(m, d, a, k) + (end - k)
    decreases end
  {
    if k < end {
      NeedGrows(m, d, a, k, end - 1);
    }
  }

  /** How allocuvm ends when it starts with n free pages. */
  ghost predicate AllocResult(m: Mem, n: nat, m': Mem, n': nat, dirs: set<nat>, d: nat, a: nat, end: nat,
                              newsz: Word, r: Word) {
    var need := Need(m, d, a, end);
    if n >= need then r == newsz && n' == n - need && Grown(m, m', dirs, d, a, end)
    else if n == need - 1 && NewRegion(m, d, a, end - 1) then
      r == newsz && n' == 0 && Grown(m, m', dirs, d, a, end - 1) && end <= 0x8_0000 && !Present(Pte(m', d, end - 1))
    else r == 0 && Restored(m, m', dirs, d, a, end)
  }

  /** The loop of allocuvm at page a, when the pages below k are mapped. */
  ghost predicate AllocState(m0: Mem, n0: nat, m: Mem, n: nat, dirs: set<nat>, d: nat, a0: nat, a: nat, end: nat,
                             k: nat) {
    && a0 <= k <= a <= end <= 0x8_0000 && Grown(m0, m, dirs, d, a0, k)
    && if k == a then n + Need(m0, d, a0, a) == n0 && TablesBeyond(m0, m, d, a0, a)
       else k == a - 1 && n == 0 && n0 == Need(m0, d, a0, a) - 1 && NewRegion(m0, d, a0, a - 1)
  }

  /** The directory entries of regions that hold no page from a to end are as before. */
  ghost predicate TablesOutside(m: Mem, m': Mem, d: nat, a: nat, end: nat) {
    && d < |m| == |m'|
    && (forall i :: 0 <= i < 1024 && (1024 * i + 1024 <= a || end <= 1024 * i) ==> m'[d][i] == m[d][i])
  }

  lemma OutsideNext(m0: Mem, m: Mem, m': Mem, d: nat, a0: nat, a: nat)
    requires a0 <= a && TablesOutside(m0, m, d, a0, a) && OtherTables(m, m', d, a / 1024)
    ensures TablesOutside(m0, m', d, a0, a + 1)
  {
    forall i | 0 <= i < 1024 && (1024 * i + 1024 <= a0 || a + 1 <= 1024 * i) ensures m'[d][i] == m0[d][i] {
      assert i != a / 1024;
    }
  }

  /** Regions not reached yet have a table exactly if they had one at the start. */
  ghost predicate TablesBeyond(m0: Mem, m: Mem, d: nat, a0: nat, a: nat) {
    && (a == a0 ==> m == m0)
    && (forall i :: 0 <= i < 1024 && 1024 * i >= a ==> (HasTable(m, d, i) <==> HasTable(m0, d, i)))
  }

  /** No page from a to end is mapped. */
  ghost predicate Vacant(m: Mem, d: nat, a: nat, end: nat) {
    forall v :: a <= v < end && v < 0x10_0000 ==> !Present(Pte(m, d, v))
  }

  /** Mapped writable for the user (flags 7), to a page of zeros. */
  ghost predicate ZeroMapped(m: Mem, d: nat, v: nat)
    requires v < 0x10_0000
  {
    var w := Pte(m, d, v);
    Present(w) && FlagsOf(w) == 7 && FrameOf(w) < |m| && m[FrameOf(w)] == ZeroPage()
  }

  /** Pages a up to k of d are new zeroed pages; no other mapping changed. */
  ghost predicate Grown(m: Mem, m': Mem, dirs: set<nat>, d: nat, a: nat, k: nat) {
    && (forall e, u :: e in dirs && 0 <= u < 0x10_0000 && (e != d || u < a || u >= k) ==> Pte(m', e, u) == Pte(m, e, u))
    && (forall u :: a <= u < k ==> u < 0x10_0000 && ZeroMapped(m', d, u))
  }

  /** At page a the table is missing exactly if this is the first page of a region without one. */
  lemma TableKnown(m0: Mem, m: Mem, dirs: set<nat>, d: nat, a0: nat, a: nat)
    requires a0 <= a < 0x8_0000 && TablesBeyond(m0, m, d, a0, a) && Grown(m0, m, dirs, d, a0, a)
    ensures !HasTable(m, d, a / 1024) <==> NewRegion(m0, d, a0, a)
  {
    if a > a0 {
      if a % 1024 == 0 {
        assert 1024 * (a / 1024) >= a;
      } else {
        assert ZeroMapped(m, d, a - 1) && (a - 1) / 1024 == a / 1024;
      }
    }
  }

  lemma TablesNext(m0: Mem, m: Mem, m': Mem, d: nat, a0: nat, a: nat)
    requires a0 <= a && TablesBeyond(m0, m, d, a0, a) && OtherTables(m, m', d, a / 1024)
    ensures TablesBeyond(m0, m', d, a0, a + 1)
  {
    forall i | 0 <= i < 1024 && 1024 * i >= a + 1 ensures HasTable(m', d, i) <==> HasTable(m0, d, i) {
      assert i != a / 1024;
    }
  }

  lemma AllocNext(m0: Mem, n0: nat, m: Mem, own: seq<Place>, n: nat, m': Mem, own': seq<Place>, n': nat,
                  dirs: set<nat>, d: nat, a0: nat, a: nat, end: nat, mapped: bool)
    requires a < end && AllocState(m0, n0, m, n, dirs, d, a0, a, end, a)
    requires Wf(m, own, dirs) && d in dirs && Keeps(m, own, m', own', d)
    requires if mapped
      then n' == n - 1 - TableCost(m, d, a) && OtherTables(m, m', d, a / 1024)
        && SameMapsBut(m, m', dirs, d, a) && ZeroMapped(m', d, a)
      else n' == 0 && 1 <= n < 1 + TableCost(m, d, a) && SameMaps(m, m', dirs)
    ensures AllocState(m0, n0, m', n', dirs, d, a0, a + 1, end, if mapped then a + 1 else a)
  {
    TableKnown(m0, m, dirs, d, a0, a);
    if mapped {
      TablesNext(m0, m, m', d, a0, a);
      GrownNext(m0, m, own, m', own', dirs, d, a0, a);
    } else {
      GrownSame(m0, m, own, m', own', dirs, d, a0, a);
    }
  }

  /** A failed allocation is neither of the other two cases. */
  lemma AllocFails(m0: Mem, n0: nat, m: Mem, dirs: set<nat>, d: nat, a0: nat, a: nat, end: nat, k: nat)
    requires a < end && AllocState(m0, n0, m, 0, dirs, d, a0, a, end, k)
    ensures n0 < Need(m0, d, a0, end) && !(n0 == Need(m0, d, a0, end) - 1 && NewRegion(m0, d, a0, end - 1))
  {
    NeedGrows(m0, d, a0, a, end - 1);
  }

  lemma AllocEnds(m0: Mem, n0: nat, m: Mem, n: nat, dirs: set<nat>, d: nat, a0: nat, a: nat, end: nat, k: nat,
                  newsz: Word)
    requires AllocState(m0, n0, m, n, dirs, d, a0, a, end, k) && a == end && d in dirs && Vacant(m0, d, a0, end)
    ensures AllocResult(m0, n0, m, n, dirs, d, a0, end, newsz, newsz)
  {
  }

  lemma GrownSame(m0: Mem, m1: Mem, own1: seq<Place>, m2: Mem, own2: seq<Place>, dirs: set<nat>, d: nat, a0: nat,
                  k: nat)
    requires Wf(m1, own1, dirs) && d in dirs && Grown(m0, m1, dirs, d, a0, k) && k <= 0x8_0000
    requires SameMaps(m1, m2, dirs) && Keeps(m1, own1, m2, own2, d)
    ensures Grown(m0, m2, dirs, d, a0, k)
  {
    forall u | a0 <= u < k ensures ZeroMapped(m2, d, u) {
      assert ZeroMapped(m1, d, u) && UserOk(m1, own1, d, u);
    }
  }

  lemma GrownNext(m0: Mem, m1: Mem, own1: seq<Place>, m2: Mem, own2: seq<Place>, dirs: set<nat>, d: nat, a0: nat,
                  a: nat)
    requires Wf(m1, own1, dirs) && d in dirs && Grown(m0, m1, dirs, d, a0, a) && a0 <= a < 0x8_0000
    requires SameMapsBut(m1, m2, dirs, d, a) && ZeroMapped(m2, d, a) && Keeps(m1, own1, m2, own2, d)
    ensures Grown(m0, m2, dirs, d, a0, a + 1)
  {
    forall u | a0 <= u < a ensures ZeroMapped(m2, d, u) {
      assert ZeroMapped(m1, d, u) && UserOk(m1, own1, d, u);
    }
  }

  /** The sweep after a failure undoes what was mapped: the first table exists if anything was, so nothing is missed. */
  lemma Undone(m0: Mem, own0: seq<Place>, m1: Mem, own1: seq<Place>, m2: Mem, own2: seq<Place>, dirs: set<nat>,
               d: nat, a0: nat, k: nat, end: nat)
    requires Wf(m0, own0, dirs) && Wf(m1, own1, dirs) && d in dirs && a0 <= k <= end <= 0x8_0000
    requires Keeps(m0, own0, m1, own1, d) && Grown(m0, m1, dirs, d, a0, k) && Vacant(m0, d, a0, end)
    requires SweptTo(m1, own1, m2, own2, dirs, d, a0, end, end)
    ensures Restored(m0, m2, dirs, d, a0, end) && Keeps(m0, own0, m2, own2, d)
  {
    forall v | a0 <= v < end ensures !Present(Pte(m2, d, v)) {
      if Present(Pte(m1, d, v)) {
        assert v < k && ZeroMapped(m1, d, a0);
        SweepsAll(m1, d, a0, end, v);
      }
    }
    forall f | 0 <= f < |m0| && own0[f] != OnFreeList && f != d && !(own0[f].TableOf? && own0[f].d == d)
      ensures m2[f] == m0[f] && own2[f] == own0[f]
    {
      assert PlaceOk(m0, own0, dirs, f);
    }
  }

  /** No page from a to end is mapped; no other mapping changed. */
  ghost predicate Restored(m: Mem, m': Mem, dirs: set<nat>, d: nat, a: nat, end: nat) {
    && (forall e, u :: e in dirs && 0 <= u < 0x10_0000 && (e != d || u < a || u >= end) ==>
      Pte(m', e, u) == Pte(m, e, u))
    && Vacant(m', d, a, end)
  }

  /** The kernel part of the address space is mapped as before. */
  ghost predicate SameKernel(m: Mem, m': Mem, c: nat) {
    forall u :: 0x8_0000 <= u < 0x10_0000 ==> Pte(m', c, u) == Pte(m, c, u)
  }

  /**
    The kernel part of an address space: all physical memory from 0x8000_0000 on, frame by frame, of which the
    kernel's text, from 0x8010_0000 up to `data`, cannot be written; the devices at their own addresses
    from 0xFE00_0000 on; and nothing in between. None of it is for the user.
   */
  ghost predicate KernelMapped(m: Mem, d: nat, data: nat) {
    forall v :: 0x8_0000 <= v < 0x10_0000 ==> KernelPage(Pte(m, d, v), v, data)
  }

  predicate KernelPage(w: Word, v: nat, data: nat) {
    if v < 0x8_E000 then
      Present(w) && FrameOf(w) == v - 0x8_0000 && FlagsOf(w) == if 0x8_0100 <= v < data then 1 else 3
    else if v < 0xF_E000 then !Present(w)
    else Present(w) && FrameOf(w) == v && FlagsOf(w) == 3
  }

  /** So the kernel reaches every frame of physical memory at its address Kva, in every address space. */
  lemma KernelSees(m: Mem, d: nat, data: nat, f: nat)
    requires KernelMapped(m, d, data) && f < 0xE000
    ensures Kva(f) % 4096 == 0 && Kva(f) / 4096 < 0x10_0000
    ensures Present(Pte(m, d, Kva(f) / 4096)) && FrameOf(Pte(m, d, Kva(f) / 4096)) == f
  {
    var v := 0x8_0000 + f;
    assert Kva(f) == 4096 * v && Kva(f) / 4096 == v;
    assert KernelPage(Pte(m, d, v), v, data);
  }

  lemma KernelKept(m: Mem, m': Mem, c: nat, data: nat)
    requires KernelMapped(m, c, data) && SameKernel(m, m', c)
    ensures KernelMapped(m', c, data)
  {
    forall v | 0x8_0000 <= v < 0x10_0000 ensures KernelPage(Pte(m', c, v), v, data) {
      assert KernelPage(Pte(m, c, v), v, data);
    }
  }

  /** Page v of c is a copy of page v of d, in another frame. */
  ghost predicate PageCopied(m: Mem, own: seq<Place>, d: nat, c: nat, v: nat)
    requires |m| == |own| && v < 0x8_0000
  {
    var w, x := Pte(m, d, v), Pte(m, c, v);
    && Present(w) && Present(x) && FlagsOf(x) == FlagsOf(w)
    && FrameOf(w) < |m| && FrameOf(x) < |m| && FrameOf(x) != FrameOf(w) && m[FrameOf(x)] == m[FrameOf(w)]
    && own[FrameOf(w)] == UserOf(d, v) && own[FrameOf(x)] == UserOf(c, v)
  }

  ghost predicate Copied(m: Mem, own: seq<Place>, d: nat, c: nat, n: nat) {
    && |m| == |own| && n <= 0x8_0000
    && (forall v :: 0 <= v < n ==> PageCopied(m, own, d, c, v))
    && (forall v :: n <= v < 0x8_0000 ==> !Present(Pte(m, c, v)))
  }

  /** Pages that a copy takes up to page k: the kernel's part, the pages, and a table for each 1024 of them. */
  function CopyCost(k: nat): nat {
    65 + k + (k + 1023) / 1024
  }

  lemma CopyCostNext(k: nat)
    ensures CopyCost(k + 1) == CopyCost(k) + 1 + if k % 1024 == 0 then 1 else 0
  {
  }

  lemma {:induction false} CopyCostGrows(k: nat, n: nat)
    requires k <= n
    ensures CopyCost(k) <= CopyCost(n)
  {
    if k < n {
      CopyCostGrows(k, n - 1);
      CopyCostNext(n - 1);
    }
  }

  /** Exactly the regions with a page below i have a table. */
  ghost predicate UserTables(m: Mem, c: nat, i: nat) {
    forall r :: 0 <= r < 512 ==> (HasTable(m, c, r) <==> 1024 * r < i)
  }

  ghost predicate PresentBelow(m: Mem, d: nat, v: nat)
    requires v <= 0x10_0000
  {
    forall u :: 0 <= u < v ==> Present(Pte(m, d, u))
  }

  /** How copyuvm of the pages below end turns out, with n free pages. */
  ghost predicate CopyEnds(m: Mem, d: nat, end: nat, n: nat, r: Outcome<nat>) {
    && end <= 0x8_0000
    && (r.Done? <==> PresentBelow(m, d, end) && n >= CopyCost(end))
    && (r.Panic? <==> exists v :: PanicsAt(m, d, end, n, v))
  }

  ghost predicate PanicsAt(m: Mem, d: nat, end: nat, n: nat, v: nat) {
    v < end <= 0x8_0000 && !Present(Pte(m, d, v)) && PresentBelow(m, d, v) && n >= CopyCost(v)
  }

  /** The ghost map once one free page, if any, went out of reach. */
  ghost function Losing(own: seq<Place>, lost: Option<nat>): seq<Place>
    requires CanLose(own, lost)
  {
    if lost.Some? then own[lost.value := Elsewhere] else own
  }

  predicate CanLose(own: seq<Place>, lost: Option<nat>) {
    lost.Some? ==> lost.value < |own| && own[lost.value] == OnFreeList
  }

  /** Every frame is where it was, but for one free page that is out of reach if `loses`. */
  ghost predicate GivenBack(own: seq<Place>, own': seq<Place>, loses: bool) {
    exists lost :: CanLose(own, lost) && own' == Losing(own, lost) && (lost.Some? <==> loses)
  }

  /** The pages run out just when a page has been taken and its table is missing. */
  ghost predicate LosesOne(n: nat) {
    exists i :: 0 <= i && i % 1024 == 0 && n == CopyCost(i) + 1
  }

  lemma LosesExactly(n0: nat, i: nat, n: nat, cost: nat)
    requires n + CopyCost(i) == n0 && n < 1 + cost && cost == if i % 1024 == 0 then 1 else 0
    ensures LosesOne(n0) <==> n > 0
  {
    if n == 0 {
      forall j | 0 <= j && j % 1024 == 0 ensures n0 != CopyCost(j) + 1 {
        CopyCostNext(j);
        if j < i {
          CopyCostGrows(j + 1, i);
        } else {
          CopyCostGrows(i, j);
        }
      }
    }
  }

  /** A space made of free frames, freed again. */
  lemma SpaceReturned(m0: Mem, own0: seq<Place>, dirs0: set<nat>, own1: seq<Place>, m2: Mem, own2: seq<Place>,
                      m3: Mem, own3: seq<Place>, c: nat, lost: Option<nat>)
    requires Wf(m0, own0, dirs0) && c < |own0| && own0[c] == OnFreeList && Takes(own0, own1, c)
    requires CanLose(own1, lost) && Takes(Losing(own1, lost), own2, c) && SpaceFreed(m2, own2, m3, own3, c)
    ensures CanLose(own0, lost) && own3 == Losing(own0, lost)
  {
    forall f | 0 <= f < |own0| ensures own3[f] == (if lost == Some(f) then Elsewhere else own0[f]) {
      assert PlaceOk(m0, own0, dirs0, f);
    }
  }

  lemma CopyRefused(m: Mem, d: nat, end: nat, n: nat)
    requires n < 65 && end <= 0x8_0000
    ensures CopyEnds(m, d, end, n, Error)
  {
  }

  lemma CopyComplete(m0: Mem, m: Mem, own: seq<Place>, d: nat, c: nat, end: nat)
    requires Copied(m, own, d, c, end) && forall v :: 0 <= v < end ==> Pte(m, d, v) == Pte(m0, d, v)
    ensures PresentBelow(m0, d, end)
  {
    forall v | 0 <= v < end ensures Present(Pte(m0, d, v)) {
      assert PageCopied(m, own, d, c, v);
    }
  }

  lemma CopyStep(m0: Mem, m: Mem, own: seq<Place>, n: nat, m': Mem, d: nat, c: nat, i: nat, end: nat, n0: nat,
                 r: Outcome<nat>)
    requires i < end <= 0x8_0000 && Copied(m, own, d, c, i) && UserTables(m, c, i) && n + CopyCost(i) == n0
    requires forall v :: 0 <= v < end ==> Pte(m, d, v) == Pte(m0, d, v)
    requires r.Panic? <==> !Present(Pte(m, d, i))
    requires r.Error? ==> n < 1 + TableCost(m, c, i)
    requires r.Done? ==> OtherTables(m, m', c, i / 1024) && HasTable(m', c, i / 1024) && n >= 1 + TableCost(m, c, i)
    ensures !r.Done? ==> CopyEnds(m0, d, end, n0, r)
    ensures r.Done? ==> UserTables(m', c, i + 1) && CopyCost(i + 1) == CopyCost(i) + 1 + TableCost(m, c, i)
  {
    var q := i / 1024;
    assert 1024 * q <= i < 1024 * q + 1024 && (HasTable(m, c, q) <==> 1024 * q < i);
    CopyCostNext(i);
    CopyComplete(m0, m, own, d, c, i);
    if r.Panic? {
      assert PanicsAt(m0, d, end, n0, i);
    } else if r.Error? {
      CopyRunsOut(m0, d, end, n0, i);
    } else {
      forall k | 0 <= k < 512 ensures HasTable(m', c, k) <==> 1024 * k < i + 1 {
        assert k != q ==> (HasTable(m', c, k) <==> HasTable(m, c, k));
      }
    }
  }

  lemma CopyRunsOut(m: Mem, d: nat, end: nat, n: nat, i: nat)
    requires i < end <= 0x8_0000 && PresentBelow(m, d, i) && Present(Pte(m, d, i)) && n < CopyCost(i + 1)
    ensures CopyEnds(m, d, end, n, Error)
  {
    CopyCostGrows(i + 1, end);
    forall v ensures !PanicsAt(m, d, end, n, v) {
      if i < v {
        CopyCostGrows(i + 1, v);
      }
    }
  }

  /** Pages already copied stay copies. */
  lemma CopiedKept(m: Mem, own: seq<Place>, m': Mem, own': seq<Place>, dirs: set<nat>, d: nat, c: nat, n: nat)
    requires Copied(m, own, d, c, n) && SameMaps(m, m', dirs) && d in dirs && c in dirs
    requires Keeps(m, own, m', own', c)
    ensures Copied(m', own', d, c, n)
    requires c < |own| && own[c] == Directory
  {
    forall v | 0 <= v < n ensures PageCopied(m', own', d, c, v) {
      assert PageCopied(m, own, d, c, v);
    }
  }

  lemma CopiedNext(m: Mem, own: seq<Place>, m': Mem, own': seq<Place>, dirs: set<nat>, d: nat, c: nat, n: nat, f: nat)
    requires Copied(m, own, d, c, n) && n < 0x8_0000 && d in dirs && c in dirs && d != c && f < |m|
    requires c < |own| && own[c] == Directory && own[f] == Elsewhere && SameMapsBut(m, m', dirs, c, n)
    requires var w, x := Pte(m, d, n), Pte(m', c, n);
      && Present(w) && Present(x) && FlagsOf(x) == FlagsOf(w) && FrameOf(x) == f
      && FrameOf(w) < |m| && own[FrameOf(w)] == UserOf(d, n) && m[f] == m[FrameOf(w)]
    requires Keeps(m, own, m', Unclaimed(own', f, true), c) && |own'| == |own| && own'[f] == UserOf(c, n)
    ensures Copied(m', own', d, c, n + 1)
  {
    NewlyCopied(m, own, m', own', d, c, n, f);
    forall v | 0 <= v < n ensures PageCopied(m', own', d, c, v) {
      StaysCopied(m, own, m', own', dirs, d, c, n, f, v);
    }
  }

  lemma MappedOne(m: Mem, m': Mem, dirs: set<nat>, d: nat, v: nat, k: nat, f: nat, perm: nat)
    requires Mapped(m, m', dirs, d, v, k, f, perm) && d in dirs && v <= k <= v + 1
    ensures k == v ==> SameMaps(m, m', dirs)
    ensures k == v + 1 ==> SameMapsBut(m, m', dirs, d, v) && Pte(m', d, v) == Entry(f, perm)
  {
  }

  lemma KeepsClaim(m: Mem, own: seq<Place>, m1: Mem, own1: seq<Place>, m2: Mem, own2: seq<Place>, d: nat, f: nat,
                   claims: bool)
    requires f < |m| == |own| == |m1| == |own1| == |own2| && own[f] == OnFreeList
    requires forall g :: 0 <= g < |m| && g != f ==> m1[g] == m[g] && own1[g] == own[g]
    requires Keeps(m1, own1, m2, Unclaimed(own2, f, claims), d)
    ensures Keeps(m, own, m2, own2, d)
  {
  }

  lemma NewlyCopied(m: Mem, own: seq<Place>, m': Mem, own': seq<Place>, d: nat, c: nat, n: nat, f: nat)
    requires n < 0x8_0000 && f < |m| == |own| == |own'| && c < |own| && own[c] == Directory && own[f] == Elsewhere
    requires var w, x := Pte(m, d, n), Pte(m', c, n);
      && Pte(m', d, n) == w && Present(w) && Present(x) && FlagsOf(x) == FlagsOf(w) && FrameOf(x) == f
      && FrameOf(w) < |m| && own[FrameOf(w)] == UserOf(d, n) && m[f] == m[FrameOf(w)]
    requires Keeps(m, own, m', Unclaimed(own', f, true), c) && own'[f] == UserOf(c, n)
    ensures PageCopied(m', own', d, c, n)
  {
  }

  lemma StaysCopied(m: Mem, own: seq<Place>, m': Mem, own': seq<Place>, dirs: set<nat>, d: nat, c: nat, n: nat,
                    f: nat, v: nat)
    requires v < n < 0x8_0000 && d in dirs && c in dirs && d != c && f < |m| == |own|
    requires c < |own| && own[c] == Directory && own[f] == Elsewhere && PageCopied(m, own, d, c, v)
    requires forall e, u :: e in dirs && 0 <= u < n ==> Pte(m', e, u) == Pte(m, e, u)
    requires Keeps(m, own, m', Unclaimed(own', f, true), c) && |own'| == |own|
    ensures PageCopied(m', own', d, c, v)
  {
  }

  lemma EntryCopy(f: nat, w: Word)
    requires f < 0x10_0000 && Present(w)
    ensures var e := Entry(f, FlagsOf(w)); Present(e) && FrameOf(e) == f && FlagsOf(e) == FlagsOf(w)
  {
    EntryFields(f, FlagsOf(w));
    assert w % 4096 % 2 == w % 2;
  }

  /** Freeing a space made of frames that were free keeps all that was not free. */
  lemma SpaceFreedKeeps(m: Mem, own: seq<Place>, dirs: set<nat>, m1: Mem, own1: seq<Place>, m2: Mem, own2: seq<Place>,
                        d: nat)
    requires Wf(m, own, dirs) && KeepsAll(m, own, m1, own1) && SpaceFreed(m1, own1, m2, own2, d)
    requires d < |m| && own[d] == OnFreeList
    ensures KeepsAll(m, own, m2, own2)
  {
    forall f | 0 <= f < |m| && own[f] != OnFreeList ensures !Belongs(own[f], f, d) {
      assert PlaceOk(m, own, dirs, f);
      assert d !in dirs;
    }
  }

  /** The kernel's data starts on a page after its text and below the end of physical memory. */
  predicate DataOk(data: nat) {
    0x8_0100 < data < 0x8_E000
  }

  /** A row of kmap, in pages. */
  datatype Kmap = Kmap(virt: nat, phys: nat, end: nat, perm: nat)

  function Kmaps(data: nat): seq<Kmap>
    requires DataOk(data)
  {
    [Kmap(0x8_0000, 0, 0x100, 2), Kmap(0x8_0100, 0x100, data - 0x8_0000, 0),
     Kmap(data, data - 0x8_0000, 0xE000, 2), Kmap(0xF_E000, 0xF_E000, 0, 2)]
  }

  /** phys_end - phys_start in 32-bit arithmetic */
  function Count(e: Kmap): nat {
    (e.end - e.phys) % 0x10_0000
  }

  lemma KmapArgs(data: nat, k: nat)
    requires DataOk(data) && k < 4
    ensures var e := Kmaps(data)[k];
      && e.virt >= 0x8_0000 && e.perm < 4096 && Count(e) > 0 && e.virt + Count(e) <= 0x10_0000
      && LastPage(4096 * e.virt, 4096 * Count(e)) == e.virt + Count(e) - 1 && 4096 * e.virt / 4096 == e.virt
      && UserCount(e.virt, e.virt + Count(e)) == 0 && MapArgs(e.virt, e.virt + Count(e) - 1, e.phys)
  {
    var e := Kmaps(data)[k];
    LastOfRun(e.virt, Count(e));
  }

  lemma LastOfRun(a: nat, n: nat)
    requires n > 0 && a + n <= 0x10_0000 && n < 0x10_0000
    ensures LastPage(4096 * a, 4096 * n) == a + n - 1
  {
    assert 4096 * a + 4096 * n - 1 == 4096 * (a + n - 1) + 4095;
  }

  predicate InRow(e: Kmap, v: nat) {
    e.virt <= v < e.virt + Count(e)
  }

  ghost predicate InRows(data: nat, k: nat, v: nat)
    requires DataOk(data) && k <= 4
  {
    exists j :: 0 <= j < k && InRow(Kmaps(data)[j], v)
  }

  /** The first k rows of kmap are mapped, and nothing else. */
  ghost predicate KernelOnly(m: Mem, d: nat, data: nat, k: nat)
    requires DataOk(data) && k <= 4
  {
    && (forall v :: 0 <= v < 0x10_0000 && Present(Pte(m, d, v)) ==> InRows(data, k, v))
    && KernelRows(m, d, data, k)
  }

  ghost predicate KernelRows(m: Mem, d: nat, data: nat, k: nat)
    requires DataOk(data) && k <= 4
  {
    forall j :: 0 <= j < k ==> RowMapped(m, d, Kmaps(data)[j])
  }

  /** The rows of kmap do not overlap, so setupkvm never maps a page twice. */
  lemma RowsApart(data: nat, k: nat, v: nat)
    requires DataOk(data) && k < 4 && InRow(Kmaps(data)[k], v)
    ensures !InRows(data, k, v) && v >= 0x8_0000
  {
    KmapCounts(data);
  }

  lemma KmapCounts(data: nat)
    requires DataOk(data)
    ensures Count(Kmaps(data)[0]) == 0x100 && Count(Kmaps(data)[1]) == data - 0x8_0100
    ensures Count(Kmaps(data)[2]) == 0x8_E000 - data && Count(Kmaps(data)[3]) == 0x2000
  {
  }

  /** What the four rows amount to, page by page. */
  lemma KernelIs(m: Mem, d: nat, data: nat)
    requires DataOk(data) && KernelOnly(m, d, data, 4)
    ensures KernelMapped(m, d, data) && forall v :: 0 <= v < 0x8_0000 ==> !Present(Pte(m, d, v))
  {
    forall v | 0x8_0000 <= v < 0x10_0000 ensures KernelPage(Pte(m, d, v), v, data) {
      KernelPageIs(m, d, data, v);
    }
    forall v | 0 <= v < 0x8_0000 ensures !Present(Pte(m, d, v)) {
      KernelPageIs(m, d, data, v);
    }
  }

  lemma KernelPageIs(m: Mem, d: nat, data: nat, v: nat)
    requires DataOk(data) && KernelOnly(m, d, data, 4) && v < 0x10_0000
    ensures if v < 0x8_0000 then !Present(Pte(m, d, v)) else KernelPage(Pte(m, d, v), v, data)
  {
    KmapCounts(data);
    if 0x8_0000 <= v < 0x8_0100 {
      RowPage(m, d, data, 0, v);
    } else if 0x8_0100 <= v < data {
      RowPage(m, d, data, 1, v);
    } else if data <= v < 0x8_E000 {
      RowPage(m, d, data, 2, v);
    } else if 0xF_E000 <= v {
      RowPage(m, d, data, 3, v);
    } else {
      NoRow(data, v);
    }
  }

  lemma RowPage(m: Mem, d: nat, data: nat, j: nat, v: nat)
    requires DataOk(data) && KernelOnly(m, d, data, 4) && v < 0x10_0000 && j < 4 && InRow(Kmaps(data)[j], v)
    ensures var w, e := Pte(m, d, v), Kmaps(data)[j];
      Present(w) && FrameOf(w) == e.phys + (v - e.virt) && FlagsOf(w) == WithPresent(e.perm)
  {
    var e := Kmaps(data)[j];
    assert RowMapped(m, d, e);
    EntryFields(e.phys + (v - e.virt), e.perm);
  }

  lemma NoRow(data: nat, v: nat)
    requires DataOk(data) && (v < 0x8_0000 || 0x8_E000 <= v < 0xF_E000)
    ensures !InRows(data, 4, v)
  {
    KmapCounts(data);
  }

  ghost predicate RowMapped(m: Mem, d: nat, e: Kmap) {
    && e.virt + Count(e) <= 0x10_0000 && e.phys + Count(e) <= 0x10_0000 && e.perm < 4096
    && forall v :: e.virt <= v < e.virt + Count(e) ==> Pte(m, d, v) == Entry(e.phys + (v - e.virt), e.perm)
  }

  lemma RowKept(m: Mem, m': Mem, dirs: set<nat>, d: nat, e: Kmap, a: nat, k: nat, pf: nat, perm: nat)
    requires RowMapped(m, d, e) && Mapped(m, m', dirs, d, a, k, pf, perm) && d in dirs
    ensures RowMapped(m', d, e)
  {
    forall v | e.virt <= v < e.virt + Count(e) ensures Pte(m', d, v) == Pte(m, d, v) {
      EntryFields(e.phys + (v - e.virt), e.perm);
    }
  }

  lemma KernelNext(m: Mem, m': Mem, dirs: set<nat>, d: nat, data: nat, k: nat)
    requires DataOk(data) && k < 4 && d in dirs && KernelOnly(m, d, data, k)
    requires var e := Kmaps(data)[k]; Mapped(m, m', dirs, d, e.virt, e.virt + Count(e), e.phys, e.perm)
    ensures KernelOnly(m', d, data, k + 1)
  {
    var e := Kmaps(data)[k];
    KmapArgs(data, k);
    forall j | 0 <= j < k ensures RowMapped(m', d, Kmaps(data)[j]) {
      RowKept(m, m', dirs, d, Kmaps(data)[j], e.virt, e.virt + Count(e), e.phys, e.perm);
    }
    forall v | 0 <= v < 0x10_0000 && Present(Pte(m', d, v)) ensures InRows(data, k + 1, v) {
      if !InRow(e, v) {
        assert Present(Pte(m, d, v));
        var j :| 0 <= j < k && InRow(Kmaps(data)[j], v);
      }
    }
  }

  lemma RowDone(m: Mem, own: seq<Place>, m': Mem, own': seq<Place>, dirs: set<nat>, d: nat, data: nat, k: nat,
                done: nat, first: nat, r: Outcome<()>)
    requires DataOk(data) && k < 4 && d in dirs && KernelOnly(m, d, data, k)
    requires var e := Kmaps(data)[k];
      MapResult(m, own, m', own', dirs, d, e.virt, done, e.virt + Count(e) - 1, e.phys, e.perm, first, r)
    ensures !r.Panic? && Keeps(m, own, m', own', d) && (r.Done? ==> KernelOnly(m', d, data, k + 1))
    ensures Takes(own, own', d)
  {
    KmapArgs(data, k);
    assert Unclaim(own', Kmaps(data)[k].phys, 0) == own';
    if r.Done? {
      KernelNext(m, m', dirs, d, data, k);
    } else if r.Panic? {
      RowsApart(data, k, done);
      assert false;
    }
  }

  // ---------------------------------------------------------------- what the kernel's mapping costs

  /** Tables of the first k rows below the devices. */
  function LowTables(data: nat, k: nat): nat
    requires DataOk(data)
  {
    if k == 0 then 0 else if k == 1 then 1 else if k == 2 then (data - 1) / 1024 - 511 else 56
  }

  function TablesOfRows(data: nat, k: nat): nat
    requires DataOk(data)
  {
    LowTables(data, k) + if k == 4 then 8 else 0
  }

  /** Tables that row k adds. */
  function RowCost(data: nat, k: nat): int
    requires DataOk(data)
  {
    if k == 3 then 8 else LowTables(data, k + 1) - LowTables(data, k)
  }

  /** After k rows: tables from 0x8000_0000 on, and with the last row those of the devices. */
  ghost predicate KernelTables(m: Mem, d: nat, data: nat, k: nat)
    requires DataOk(data)
  {
    forall i :: 0 <= i < 1024 ==>
      (HasTable(m, d, i) <==> 512 <= i < 512 + LowTables(data, k) || (k == 4 && i >= 1016))
  }

  lemma {:induction false} NeedClosed(m: Mem, d: nat, a: nat, end: nat)
    requires a < end <= 0x10_0000 && forall i :: a / 1024 < i <= (end - 1) / 1024 ==> !HasTable(m, d, i)
    ensures TableNeed(m, d, a, end) == (end - 1) / 1024 - a / 1024 + (if HasTable(m, d, a / 1024) then 0 else 1)
    decreases end
  {
    var v := end - 1;
    if v == a {
      assert TableNeed(m, d, a, v) == 0;
    } else {
      NeedClosed(m, d, a, v);
      if v % 1024 == 0 {
        assert v / 1024 == (v - 1) / 1024 + 1;
      } else {
        assert v / 1024 == (v - 1) / 1024;
      }
    }
  }

  lemma RowNeed(m: Mem, d: nat, data: nat, k: nat)
    requires DataOk(data) && k < 4 && KernelTables(m, d, data, k)
    ensures var e := Kmaps(data)[k]; TableNeed(m, d, e.virt, e.virt + Count(e)) == RowCost(data, k)
  {
    KmapCounts(data);
    var e := Kmaps(data)[k];
    NeedClosed(m, d, e.virt, e.virt + Count(e));
  }

  lemma RowTables(m: Mem, m': Mem, d: nat, data: nat, k: nat)
    requires DataOk(data) && k < 4 && KernelTables(m, d, data, k)
    requires var e := Kmaps(data)[k];
      TablesOutside(m, m', d, e.virt, e.virt + Count(e)) && TablesIn(m', d, e.virt, e.virt + Count(e))
    ensures KernelTables(m', d, data, k + 1)
  {
    KmapCounts(data);
    var e, q := Kmaps(data)[k], (data - 1) / 1024;
    assert 1024 * q <= data - 1 < 1024 * q + 1024;
    forall i | 0 <= i < 1024
      ensures HasTable(m', d, i) <==> 512 <= i < 512 + LowTables(data, k + 1) || (k + 1 == 4 && i >= 1016)
    {
      if 1024 * i + 1024 <= e.virt || e.virt + Count(e) <= 1024 * i {
        assert m'[d][i] == m[d][i];
        assert HasTable(m', d, i) <==> HasTable(m, d, i);
      } else {
        assert HasTable(m', d, i);
      }
    }
  }

  /** Every frame that was not free is as before. */
  ghost predicate KeepsAll(m: Mem, own: seq<Place>, m': Mem, own': seq<Place>) {
    && |m| == |own| == |m'| == |own'|
    && (forall f :: 0 <= f < |m| && own[f] != OnFreeList ==> m'[f] == m[f] && own'[f] == own[f])
  }

  /** So every address space maps what it did. */
  lemma KeepsMaps(m: Mem, own: seq<Place>, dirs: set<nat>, m': Mem, own': seq<Place>)
    requires Wf(m, own, dirs) && KeepsAll(m, own, m', own')
    ensures SameMaps(m, m', dirs)
  {
    forall d, v | d in dirs && 0 <= v < 0x10_0000 ensures Pte(m', d, v) == Pte(m, d, v) {
      assert TableOk(m, own, d, v / 1024);
    }
  }

  /** Work on a directory made of frames that were free keeps all that was not free. */
  lemma KeepsAllThen(m: Mem, own: seq<Place>, dirs: set<nat>, m1: Mem, own1: seq<Place>, m2: Mem, own2: seq<Place>,
                     d: nat)
    requires Wf(m, own, dirs) && KeepsAll(m, own, m1, own1) && Keeps(m1, own1, m2, own2, d)
    requires d < |m| && own[d] == OnFreeList
    ensures KeepsAll(m, own, m2, own2)
  {
    assert PlaceOk(m, own, dirs, d);
    forall f | 0 <= f < |m| && own[f] != OnFreeList ensures m2[f] == m[f] && own2[f] == own[f] {
      assert PlaceOk(m, own, dirs, f);
      assert d !in dirs;
    }
  }

  lemma DisownKeeps(m: Mem, own: seq<Place>, dirs: set<nat>, m1: Mem, own1: seq<Place>, d: nat)
    requires Wf(m, own, dirs) && KeepsAll(m, own, m1, own1) && d < |m| && own[d] == OnFreeList
    ensures KeepsAll(m, own, m1, Disowned(own1, d))
  {
    forall f | 0 <= f < |m| && own[f] != OnFreeList ensures !Belongs(own[f], f, d) {
      assert PlaceOk(m, own, dirs, f);
      assert d !in dirs;
    }
  }

  /** The frames of one address space, and no others, went to the free list. */
  ghost predicate SpaceFreed(m: Mem, own: seq<Place>, m': Mem, own': seq<Place>, d: nat) {
    && |m| == |own| == |m'| == |own'|
    && (forall f :: 0 <= f < |m| ==> own'[f] == if Belongs(own[f], f, d) then OnFreeList else own[f])
    && (forall f :: 0 <= f < |m| && !Belongs(own[f], f, d) ==> m'[f] == m[f])
  }

  /** deallocuvm over all of user memory leaves the directory no user page. */
  ghost predicate UsersFreed(m: Mem, own: seq<Place>, m': Mem, own': seq<Place>, d: nat) {
    && d < |m| == |own| == |m'| == |own'| && m'[d] == m[d]
    && (forall f :: 0 <= f < |m| ==> own'[f] == if own[f].UserOf? && own[f].d == d then OnFreeList else own[f])
    && (forall f :: 0 <= f < |m| && !Belongs(own[f], f, d) ==> m'[f] == m[f])
  }

  lemma AllSwept(m: Mem, own: seq<Place>, m': Mem, own': seq<Place>, dirs: set<nat>, d: nat)
    requires Wf(m, own, dirs) && d in dirs && SweptTo(m, own, m', own', dirs, d, 0, 0x8_0000, 0x8_0000)
    ensures UsersFreed(m, own, m', own', d)
  {
    forall f | 0 <= f < |m|
      ensures Gone(m, own[f], d, 0, 0x8_0000, 0x8_0000) <==> own[f].UserOf? && own[f].d == d
    {
      assert PlaceOk(m, own, dirs, f);
      if own[f].UserOf? && own[f].d == d {
        SweepsAll(m, d, 0, 0x8_0000, own[f].v);
      }
    }
  }

  function AfterTables(p: Place, f: nat, d: nat, i: nat): Place {
    if p.TableOf? && p.d == d && p.i < i then OnFreeList
    else if Belongs(p, f, d) then Elsewhere
    else p
  }

  /** The tables below entry i were freed. */
  ghost predicate TablesFreed(m: Mem, own: seq<Place>, m': Mem, own': seq<Place>, d: nat, i: nat) {
    && d < |m| == |own| == |m'| == |own'| && m'[d] == m[d] && own[d] == Directory
    && (forall f :: 0 <= f < |m| ==> own'[f] == AfterTables(own[f], f, d, i))
    && (forall f :: 0 <= f < |m| && !Belongs(own[f], f, d) ==> m'[f] == m[f])
  }

  lemma TableFreed(m1: Mem, own1: seq<Place>, dirs1: set<nat>, m2: Mem, own2: seq<Place>,
                   m3: Mem, own3: seq<Place>, d: nat, i: nat)
    requires Wf(m1, own1, dirs1) && d in dirs1 && i < 1024 && TablesFreed(m1, own1, m2, own2, d, i)
    requires |m3| == |own3| == |m2|
    requires if Present(m1[d][i])
      then FrameOf(m1[d][i]) < |own2| && own3 == own2[FrameOf(m1[d][i]) := OnFreeList]
        && forall g :: 0 <= g < |m2| && g != FrameOf(m1[d][i]) ==> m3[g] == m2[g]
      else m3 == m2 && own3 == own2
    ensures TablesFreed(m1, own1, m3, own3, d, i + 1)
  {
    TablePlace(m1, own1, dirs1, d, i);
  }

  lemma TablePlace(m: Mem, own: seq<Place>, dirs: set<nat>, d: nat, i: nat)
    requires Wf(m, own, dirs) && d in dirs && i < 1024
    ensures Present(m[d][i]) ==> FrameOf(m[d][i]) < |m| && own[FrameOf(m[d][i])] == TableOf(d, i)
    ensures forall f :: 0 <= f < |m| && own[f] == TableOf(d, i) ==> Present(m[d][i]) && f == FrameOf(m[d][i])
  {
    assert TableOk(m, own, d, i);
    forall f | 0 <= f < |m| && own[f] == TableOf(d, i) ensures Present(m[d][i]) && f == FrameOf(m[d][i]) {
      assert PlaceOk(m, own, dirs, f);
    }
  }

  lemma FreedSpace(m: Mem, own: seq<Place>, m1: Mem, own1: seq<Place>, m2: Mem, own2: seq<Place>, dirs: set<nat>,
                   d: nat)
    requires UsersFreed(m, own, m1, own1, d) && Wf(m1, own1, dirs) && own[d] == Directory
    requires |m2| == |own2| == |m| && own2[d] == OnFreeList
    requires forall f :: 0 <= f < |m| && f != d ==> own2[f] == AfterTables(own1[f], f, d, 1024)
    requires forall f :: 0 <= f < |m| && !Belongs(own1[f], f, d) ==> m2[f] == m1[f]
    ensures SpaceFreed(m, own, m2, own2, d)
  {
    forall f | 0 <= f < |m| ensures own2[f] == if Belongs(own[f], f, d) then OnFreeList else own[f] {
      assert PlaceOk(m1, own1, dirs, f);
    }
  }

  lemma SameTables(m: Mem, m': Mem, d: nat, i: nat)
    requires d < |m| == |m'| && m'[d] == m[d]
    ensures HasTable(m', d, i) <==> HasTable(m, d, i)
  {
  }

  lemma SweptEnd(m: Mem, own: seq<Place>, m': Mem, own': seq<Place>, dirs: set<nat>, d: nat, a0: nat, end: nat,
                 cur: nat)
    requires SweptTo(m, own, m', own', dirs, d, a0, end, cur) && cur >= end
    ensures SweptTo(m, own, m', own', dirs, d, a0, end, end)
  {
  }

  /** The page in this place was swept before page `cur`. */
  ghost predicate Gone(m: Mem, p: Place, d: nat, a0: nat, end: nat, cur: nat) {
    p.UserOf? && p.d == d && p.v < cur && Swept(m, d, a0, end, p.v)
  }

  /** Exactly the pages the sweep visited before `cur` are unmapped, and exactly their frames were freed. */
  ghost predicate SweptTo(m: Mem, own: seq<Place>, m': Mem, own': seq<Place>, dirs: set<nat>, d: nat,
                          a0: nat, end: nat, cur: nat) {
    && d < |m| == |own| == |m'| == |own'| && m'[d] == m[d] && end <= 0x8_0000
    && (forall e, u :: e in dirs && 0 <= u < 0x10_0000 && !(e == d && u < cur && Swept(m, d, a0, end, u)) ==>
      Pte(m', e, u) == Pte(m, e, u))
    && (forall u :: 0 <= u < cur && Swept(m, d, a0, end, u) ==> !Present(Pte(m', d, u)))
    && (forall f :: 0 <= f < |m| ==> own'[f] == if Gone(m, own[f], d, a0, end, cur) then OnFreeList else own[f])
    && (forall f :: 0 <= f < |m| && !Gone(m, own[f], d, a0, end, cur) && !(own[f].TableOf? && own[f].d == d) ==>
      m'[f] == m[f])
  }

  lemma SweptNext(m: Mem, own: seq<Place>, m1: Mem, own1: seq<Place>, m2: Mem, own2: seq<Place>, dirs: set<nat>,
                  d: nat, a0: nat, end: nat, cur: nat)
    requires SweptTo(m, own, m1, own1, dirs, d, a0, end, cur) && d in dirs && Swept(m, d, a0, end, cur)
    requires PageFreed(m1, own1, m2, own2, dirs, d, cur)
    ensures SweptTo(m, own, m2, own2, dirs, d, a0, end, cur + 1)
  {
  }

  lemma SweptSkip(m: Mem, own: seq<Place>, m': Mem, own': seq<Place>, dirs: set<nat>,
                  d: nat, a0: nat, end: nat, cur: nat, cur': nat)
    requires SweptTo(m, own, m', own', dirs, d, a0, end, cur) && cur <= cur'
    requires forall u :: cur <= u < cur' ==> !Swept(m, d, a0, end, u)
    ensures SweptTo(m, own, m', own', dirs, d, a0, end, cur')
  {
  }

  lemma SweptNothing(m: Mem, own: seq<Place>, dirs: set<nat>, d: nat, a0: nat, end: nat)
    requires Wf(m, own, dirs) && d in dirs && end <= 0x8_0000
    ensures SweptTo(m, own, m, own, dirs, d, a0, end, a0)
  {
  }

  /** PGROUNDUP, as a page number. */
  function PageUp(sz: nat): nat {
    (sz + 4095) / 4096
  }

  /** Page v of d is unmapped and its frame, if it had one, on the free list. */
  ghost predicate PageFreed(m: Mem, own: seq<Place>, m': Mem, own': seq<Place>, dirs: set<nat>, d: nat, v: nat) {
    && d < |m| == |own| == |m'| == |own'| && v < 0x8_0000 && m'[d] == m[d]
    && SameMapsBut(m, m', dirs, d, v) && !Present(Pte(m', d, v))
    && (forall f :: 0 <= f < |m| ==> own'[f] == if own[f] == UserOf(d, v) then OnFreeList else own[f])
    && (forall f :: 0 <= f < |m| && own[f] != UserOf(d, v) && !(own[f].TableOf? && own[f].d == d) ==> m'[f] == m[f])
  }

  lemma UserPlace(m: Mem, own: seq<Place>, dirs: set<nat>, d: nat, v: nat)
    requires Wf(m, own, dirs) && v < 0x10_0000
    ensures forall f :: 0 <= f < |m| && own[f] == UserOf(d, v) ==> f == FrameOf(Pte(m, d, v))
  {
    forall f | 0 <= f < |m| && own[f] == UserOf(d, v) ensures f == FrameOf(Pte(m, d, v)) {
      assert PlaceOk(m, own, dirs, f);
    }
  }

  lemma NotMapped(m: Mem, own: seq<Place>, dirs: set<nat>, d: nat, v: nat)
    requires Wf(m, own, dirs) && v < 0x10_0000 && !Present(Pte(m, d, v))
    ensures forall f :: 0 <= f < |m| ==> own[f] != UserOf(d, v)
  {
    forall f | 0 <= f < |m| ensures own[f] != UserOf(d, v) {
      assert PlaceOk(m, own, dirs, f);
    }
  }

  /** PGROUNDDOWN(va + size - 1), as a page number. */
  function LastPage(va: Word, size: Word): nat {
    (va + size - 1) % 0x1_0000_0000 / 4096
  }

  predicate MapArgs(a: nat, last: nat, pf: nat) {
    a <= last < 0x10_0000 && pf + (last - a) < 0x10_0000
  }

  /** How mappages leaves memory: pages a up to k are mapped, all of them unless it failed. */
  ghost predicate MapResult(m: Mem, own: seq<Place>, m': Mem, own': seq<Place>, dirs: set<nat>, d: nat,
                            a: nat, k: nat, last: nat, pf: nat, perm: nat, first: nat, r: Outcome<()>) {
    && MapAt(m, own, m', own', dirs, d, a, k, last, pf, perm, first)
    && (r.Done? <==> k == last + 1) && (r.Panic? ==> k < 0x10_0000 && Present(Pte(m, d, k)))
  }

  /** The frames that user pages a to last are to be mapped to are in memory and nowhere yet. */
  ghost predicate Unmapped(own: seq<Place>, a: nat, last: nat, pf: nat, first: nat) {
    && (UserCount(a, last + 1) > 0 ==> first <= pf && pf + UserCount(a, last + 1) <= |own|)
    && (forall g :: pf <= g < pf + UserCount(a, last + 1) && g < |own| ==> own[g] == Elsewhere)
  }

  /** User pages a up to k have the frames from pf on. */
  ghost predicate Claimed(own: seq<Place>, d: nat, a: nat, k: nat, pf: nat) {
    && (UserCount(a, k) > 0 ==> pf + UserCount(a, k) <= |own|)
    && (forall g :: pf <= g < pf + UserCount(a, k) && g < |own| ==> own[g] == UserOf(d, a + (g - pf)))
  }

  /** How many of the pages a up to k are user pages. */
  function UserCount(a: nat, k: nat): nat {
    if k <= a || a >= 0x8_0000 then 0 else if k <= 0x8_0000 then k - a else 0x8_0000 - a
  }

  /** The ghost map without the claims on n frames from f on. */
  ghost function Unclaim(own: seq<Place>, f: nat, n: nat): (r: seq<Place>)
    ensures |r| == |own|
    ensures forall g :: 0 <= g < |own| ==> r[g] == if f <= g < f + n then Elsewhere else own[g]
  {
    seq(|own|, g requires 0 <= g < |own| => if f <= g < f + n then Elsewhere else own[g])
  }

  /** mappages has mapped pages a0 up to a, and no others. */
  ghost predicate MapAt(m0: Mem, own0: seq<Place>, m: Mem, own: seq<Place>, dirs: set<nat>, d: nat,
                        a0: nat, a: nat, last: nat, pf: nat, perm: nat, first: nat) {
    && a0 <= a <= last + 1 && Mapped(m0, m, dirs, d, a0, a, pf, perm)
    && Keeps(m0, own0, m, Unclaim(own, pf, UserCount(a0, a)), d) && Claimed(own, d, a0, a, pf)
    && Takes(own0, Unclaim(own, pf, UserCount(a0, a)), d)
    && (a <= last ==> Unmapped(own, a, last, pf + (a - a0), first))
  }

  lemma MapStarts(m: Mem, own: seq<Place>, dirs: set<nat>, d: nat, a0: nat, last: nat, pf: nat, perm: nat, first: nat)
    requires |m| == |own| && perm < 4096 && MapArgs(a0, last, pf) && Unmapped(own, a0, last, pf, first)
    ensures MapAt(m, own, m, own, dirs, d, a0, a0, last, pf, perm, first)
  {
  }

  /** Mapping one more page claims its frame, if it is a user page, and no other. */
  lemma ClaimedNext(m0: Mem, own0: seq<Place>, m1: Mem, own1: seq<Place>, m2: Mem, own2: seq<Place>, d: nat,
                    a0: nat, a: nat, last: nat, pf: nat, first: nat, done: bool)
    requires a0 <= a <= last && d < |own1| && own1[d] == Directory && |own2| == |own1|
    requires Unmapped(own1, a, last, pf + (a - a0), first) && Claimed(own1, d, a0, a, pf)
    requires Keeps(m0, own0, m1, Unclaim(own1, pf, UserCount(a0, a)), d)
    requires Keeps(m1, own1, m2, Unclaimed(own2, pf + (a - a0), done && a < 0x8_0000), d)
    requires done && a < 0x8_0000 ==> pf + (a - a0) < |own2| && own2[pf + (a - a0)] == UserOf(d, a)
    ensures var k := if done then a + 1 else a;
      Keeps(m0, own0, m2, Unclaim(own2, pf, UserCount(a0, k)), d) && Claimed(own2, d, a0, k, pf)
    ensures done ==> Unmapped(own2, a + 1, last, pf + (a + 1 - a0), first)
  {
    var f, n := pf + (a - a0), UserCount(a0, a);
    var claims := done && a < 0x8_0000;
    assert UserCount(a0, if done then a + 1 else a) == if claims then n + 1 else n;
    assert a < 0x8_0000 ==> n == a - a0 && UserCount(a, last + 1) > 0;
    forall g | 0 <= g < |own1| && own1[g] != OnFreeList && g != d && !(own1[g].TableOf? && own1[g].d == d)
      ensures m2[g] == m1[g] && (own2[g] == own1[g] || (claims && g == f))
    {
      assert Unclaimed(own2, f, claims)[g] == own1[g];
    }
    var own3 := Unclaim(own2, pf, if claims then n + 1 else n);
    forall g | 0 <= g < |m0| && own0[g] != OnFreeList && g != d && !(own0[g].TableOf? && own0[g].d == d)
      ensures m2[g] == m0[g] && own3[g] == own0[g]
    {
      assert Unclaim(own1, pf, n)[g] == own0[g];
    }
  }

  lemma TakesNext(own0: seq<Place>, own1: seq<Place>, own2: seq<Place>, d: nat, a0: nat, a: nat, last: nat, pf: nat,
                  first: nat, done: bool)
    requires a0 <= a <= last && Unmapped(own1, a, last, pf + (a - a0), first) && Claimed(own1, d, a0, a, pf)
    requires Takes(own0, Unclaim(own1, pf, UserCount(a0, a)), d)
    requires Takes(own1, Unclaimed(own2, pf + (a - a0), done && a < 0x8_0000), d)
    ensures Takes(own0, Unclaim(own2, pf, UserCount(a0, if done then a + 1 else a)), d)
  {
    var f, n := pf + (a - a0), UserCount(a0, a);
    var claims := done && a < 0x8_0000;
    var k := if claims then n + 1 else n;
    assert UserCount(a0, if done then a + 1 else a) == k;
    assert a < 0x8_0000 ==> n == a - a0 && UserCount(a, last + 1) > 0;
    var own3 := Unclaim(own2, pf, k);
    forall g | 0 <= g < |own0| ensures own3[g] == own0[g] || (own0[g] == OnFreeList && Belongs(own3[g], g, d)) {
      assert Unclaim(own1, pf, n)[g] == if pf <= g < pf + n then Elsewhere else own1[g];
      assert g != f ==> Unclaimed(own2, f, claims)[g] == own2[g];
    }
  }

  /** The ghost map without the claim the new mapping makes on its frame. */
  ghost function Unclaimed(own: seq<Place>, f: nat, claims: bool): seq<Place> {
    if claims && f < |own| then own[f := Elsewhere] else own
  }

  lemma MapHandover(m: Mem, own: seq<Place>, dirs: set<nat>, d: nat, v: nat, f: nat, perm: nat)
    requires Wf(m, own, dirs) && d in dirs && v < 0x10_0000 && f < 0x10_0000 && perm < 4096
    requires !Present(Pte(m, d, v)) && (v < 0x8_0000 ==> f < |m| && own[f] == Elsewhere)
    ensures Handover(m, own, if v < 0x8_0000 then own[f := UserOf(d, v)] else own, d, v, Entry(f, perm))
  {
    EntryFields(f, perm);
    NotMapped(m, own, dirs, d, v);
  }

  lemma SameMapsButThen(m: Mem, m1: Mem, m2: Mem, dirs: set<nat>, d: nat, v: nat)
    requires SameMaps(m, m1, dirs) && SameMapsBut(m1, m2, dirs, d, v)
    ensures SameMapsBut(m, m2, dirs, d, v)
  {
  }

  lemma MappedSame(m: Mem, m1: Mem, m2: Mem, dirs: set<nat>, d: nat, a: nat, k: nat, pf: nat, perm: nat)
    requires Mapped(m, m1, dirs, d, a, k, pf, perm) && SameMaps(m1, m2, dirs) && d in dirs
    ensures Mapped(m, m2, dirs, d, a, k, pf, perm)
  {
  }

  lemma MappedNext(m: Mem, m1: Mem, m2: Mem, dirs: set<nat>, d: nat, a: nat, k: nat, pf: nat, perm: nat)
    requires Mapped(m, m1, dirs, d, a, k, pf, perm) && d in dirs && k < 0x10_0000 && pf + (k - a) < 0x10_0000
    requires SameMapsBut(m1, m2, dirs, d, k) && Pte(m2, d, k) == Entry(pf + (k - a), perm) && !Present(Pte(m1, d, k))
    ensures Mapped(m, m2, dirs, d, a, k + 1, pf, perm)
  {
  }

  /** Pages a up to k of directory d, unmapped before, are mapped to frames from pf on; nothing else changed. */
  ghost predicate Mapped(m: Mem, m': Mem, dirs: set<nat>, d: nat, a: nat, k: nat, pf: nat, perm: nat) {
    && a <= k <= 0x10_0000 && pf + (k - a) <= 0x10_0000 && perm < 4096
    && (forall e, u :: e in dirs && 0 <= u < 0x10_0000 && (e != d || u < a || u >= k) ==> Pte(m', e, u) == Pte(m, e, u))
    && (forall u :: a <= u < k ==> Pte(m', d, u) == Entry(pf + (u - a), perm) && !Present(Pte(m, d, u)))
  }
}
