/**
  Physical pages, two-level page tables and who owns each page, as values (xv6/vm.c, xv6/kalloc.c).

  A page is 1024 32-bit words. An entry holds a frame number and twelve flag bits, bit 0 meaning present
  (32-bit paging, section 4.3 of the Intel 64 and IA-32 SDM Volume 3A). Page number v of an address
  space is the entry v % 1024 of the table in directory entry v / 1024; numbers below USER_PAGES are user
  memory. A ghost map gives every frame one place.
 */
module PageTable {
  import opened Basics

  const PAGES := 0x10_0000       // 2^32 / 4096
  const USER_PAGES := 0x8_0000   // KERNBASE / 4096

  type Page = p: seq<Word> | |p| == 1024 witness seq(1024, _ => 0)
  type Mem = seq<Page>

  datatype Place = Elsewhere | OnFreeList | Directory | TableOf(d: nat, i: nat) | UserOf(d: nat, v: nat)

  // ---------------------------------------------------------------- entries

  predicate Present(w: Word) {
    w % 2 == 1
  }

  function FrameOf(w: Word): nat {
    w / 4096
  }

  function FlagsOf(w: Word): nat {
    w % 4096
  }

  /** flags | PTE_P */
  function WithPresent(flags: nat): nat {
    if flags % 2 == 1 then flags else flags + 1
  }

  /** pa | flags | PTE_P for the page-aligned address of frame f */
  function Entry(f: nat, flags: nat): Word
    requires f < 0x10_0000 && flags < 4096
  {
    4096 * f + WithPresent(flags)
  }

  lemma EntryFields(f: nat, flags: nat)
    requires f < 0x10_0000 && flags < 4096
    ensures Present(Entry(f, flags)) && FrameOf(Entry(f, flags)) == f && FlagsOf(Entry(f, flags)) == WithPresent(flags)
  {
  }

  function ZeroPage(): Page {
    seq(1024, _ => 0)
  }

  // ---------------------------------------------------------------- lookup

  /** The page table frame of directory entry i of d, if present. */
  predicate HasTable(m: Mem, d: nat, i: nat) {
    d < |m| && i < 1024 && Present(m[d][i]) && FrameOf(m[d][i]) < |m|
  }

  /** The entry that maps page v in directory d; 0 without a table. */
  function Pte(m: Mem, d: nat, v: nat): Word
    requires v < 0x10_0000
  {
    if HasTable(m, d, v / 1024) then m[FrameOf(m[d][v / 1024])][v % 1024] else 0
  }

  // ---------------------------------------------------------------- ownership

  predicate TableOk(m: Mem, own: seq<Place>, d: nat, i: nat)
    requires d < |m| == |own| && i < 1024
  {
    Present(m[d][i]) ==>
      FrameOf(m[d][i]) < |m| && own[FrameOf(m[d][i])] == TableOf(d, i) && FlagsOf(m[d][i]) == 7
  }

  predicate UserOk(m: Mem, own: seq<Place>, d: nat, v: nat)
    requires d < |m| == |own| && v < 0x8_0000
  {
    var w := Pte(m, d, v);
    Present(w) ==> FrameOf(w) < |m| && own[FrameOf(w)] == UserOf(d, v)
  }

  /** Directories, their tables and their user pages each sit in a frame of their own. */
  ghost predicate Wf(m: Mem, own: seq<Place>, dirs: set<nat>) {
    && |m| == |own| <= 0x10_0000
    && (forall d :: d in dirs ==> d < |m| && own[d] == Directory)
    && (forall d, i :: d in dirs && 0 <= i < 1024 ==> TableOk(m, own, d, i))
    && (forall d, v :: d in dirs && 0 <= v < 0x8_0000 ==> UserOk(m, own, d, v))
    && (forall f :: 0 <= f < |m| ==> PlaceOk(m, own, dirs, f))
  }

  /** The other way round: a frame said to be somewhere is there. */
  predicate PlaceOk(m: Mem, own: seq<Place>, dirs: set<nat>, f: nat)
    requires f < |m| == |own|
  {
    match own[f]
    case Elsewhere => true
    case OnFreeList => true
    case Directory => f in dirs
    case TableOf(d, i) => d in dirs && HasTable(m, d, i) && FrameOf(m[d][i]) == f
    case UserOf(d, v) => d in dirs && v < 0x8_0000 && Present(Pte(m, d, v)) && FrameOf(Pte(m, d, v)) == f
  }

  /** Neither a directory, nor a table, nor a user page. */
  predicate Loose(p: Place) {
    p == Elsewhere || p == OnFreeList
  }

  /** Same entries for every page of every directory. */
  ghost predicate SameMaps(m: Mem, m': Mem, dirs: set<nat>) {
    forall d, v :: d in dirs && 0 <= v < 0x10_0000 ==> Pte(m', d, v) == Pte(m, d, v)
  }

  /** Only loose frames changed, and stayed loose. */
  ghost predicate LooseOnly(m: Mem, own: seq<Place>, m': Mem, own': seq<Place>) {
    && |m'| == |m| == |own| == |own'|
    && (forall f :: 0 <= f < |m| ==> if Loose(own[f]) then Loose(own'[f]) else m'[f] == m[f] && own'[f] == own[f])
  }

  lemma LooseChange(m: Mem, own: seq<Place>, dirs: set<nat>, m': Mem, own': seq<Place>)
    requires Wf(m, own, dirs) && LooseOnly(m, own, m', own')
    ensures Wf(m', own', dirs) && SameMaps(m, m', dirs)
  {
    forall d, v | d in dirs && 0 <= v < 0x10_0000 ensures Pte(m', d, v) == Pte(m, d, v) {
      assert TableOk(m, own, d, v / 1024);
    }
    forall d, i | d in dirs && 0 <= i < 1024 ensures TableOk(m', own', d, i) {
      assert TableOk(m, own, d, i);
    }
    forall d, v | d in dirs && 0 <= v < 0x8_0000 ensures UserOk(m', own', d, v) {
      assert UserOk(m, own, d, v);
    }
    forall f | 0 <= f < |m| ensures PlaceOk(m', own', dirs, f) {
      assert PlaceOk(m, own, dirs, f);
    }
  }

  // ---------------------------------------------------------------- a new table

  function WithTable(m: Mem, d: nat, i: nat, t: nat): Mem
    requires d < |m| && i < 1024 && t < 0x10_0000
  {
    m[d := m[d][i := Entry(t, 7)]]
  }

  lemma NewTablePte(m: Mem, own: seq<Place>, dirs: set<nat>, d: nat, i: nat, t: nat, e: nat, v: nat)
    requires Wf(m, own, dirs) && d in dirs && e in dirs && i < 1024 && v < 0x10_0000
    requires !Present(m[d][i]) && t < |m| && own[t] == Elsewhere && m[t] == ZeroPage()
    ensures Pte(WithTable(m, d, i, t), e, v) == Pte(m, e, v)
  {
    EntryFields(t, 7);
    var m' := WithTable(m, d, i, t);
    assert TableOk(m, own, e, v / 1024);
    assert t != d && m'[t] == m[t];
    if e == d && v / 1024 == i {
      assert m'[t][v % 1024] == 0;
    } else {
      assert m'[e][v / 1024] == m[e][v / 1024];
    }
  }

  /** A zeroed page hung on an absent directory entry changes no mapping. */
  lemma NewTable(m: Mem, own: seq<Place>, dirs: set<nat>, d: nat, i: nat, t: nat)
    requires Wf(m, own, dirs) && d in dirs && i < 1024
    requires !Present(m[d][i]) && t < |m| && own[t] == Elsewhere && m[t] == ZeroPage()
    ensures var m' := WithTable(m, d, i, t);
      && Wf(m', own[t := TableOf(d, i)], dirs) && SameMaps(m, m', dirs)
      && HasTable(m', d, i) && FrameOf(m'[d][i]) == t
  {
    EntryFields(t, 7);
    var m', own' := WithTable(m, d, i, t), own[t := TableOf(d, i)];
    forall e, v | e in dirs && 0 <= v < 0x10_0000 ensures Pte(m', e, v) == Pte(m, e, v) {
      NewTablePte(m, own, dirs, d, i, t, e, v);
    }
    forall e, j | e in dirs && 0 <= j < 1024 ensures TableOk(m', own', e, j) {
      assert TableOk(m, own, e, j);
    }
    forall e, v | e in dirs && 0 <= v < 0x8_0000 ensures UserOk(m', own', e, v) {
      assert UserOk(m, own, e, v);
    }
    forall f | 0 <= f < |m| ensures PlaceOk(m', own', dirs, f) {
      assert PlaceOk(m, own, dirs, f);
    }
  }

  // ---------------------------------------------------------------- setting and clearing an entry

  function SetPte(m: Mem, d: nat, v: nat, w: Word): Mem
    requires HasTable(m, d, v / 1024)
  {
    var t := FrameOf(m[d][v / 1024]);
    m[t := m[t][v % 1024 := w]]
  }

  lemma SetPteAt(m: Mem, own: seq<Place>, dirs: set<nat>, d: nat, v: nat, w: Word, e: nat, u: nat)
    requires Wf(m, own, dirs) && d in dirs && e in dirs && v < 0x10_0000 && u < 0x10_0000
    requires HasTable(m, d, v / 1024)
    ensures Pte(SetPte(m, d, v, w), e, u) == if e == d && u == v then w else Pte(m, e, u)
    ensures SetPte(m, d, v, w)[e] == m[e]
  {
    assert TableOk(m, own, d, v / 1024) && TableOk(m, own, e, u / 1024);
    var t := FrameOf(m[d][v / 1024]);
    var m' := SetPte(m, d, v, w);
    assert own[e] == Directory && own[t] == TableOf(d, v / 1024);
    if e == d && u / 1024 == v / 1024 {
      assert u != v ==> u % 1024 != v % 1024;
    }
  }

  /** Only page v of directory d is mapped differently. */
  ghost predicate SameMapsBut(m: Mem, m': Mem, dirs: set<nat>, d: nat, v: nat) {
    forall e, u :: e in dirs && 0 <= u < 0x10_0000 && (e != d || u != v) ==> Pte(m', e, u) == Pte(m, e, u)
  }

  /** What the entry of one page may become: see `SetPteWf`. */
  ghost predicate Handover(m: Mem, own: seq<Place>, own': seq<Place>, d: nat, v: nat, w: Word) {
    && |own'| == |own| == |m|
    && (v < 0x8_0000 && Present(w) ==> FrameOf(w) < |m| && own'[FrameOf(w)] == UserOf(d, v))
    && (forall f :: 0 <= f < |m| && own[f] != UserOf(d, v) && !Loose(own[f]) ==> own'[f] == own[f])
    && (forall f :: 0 <= f < |m| && (own[f] == UserOf(d, v) || Loose(own[f])) ==>
      Loose(own'[f]) || (own'[f] == UserOf(d, v) && v < 0x8_0000 && Present(w) && FrameOf(w) == f))
  }

  /**
    Rewriting one entry: a user page that is unmapped gives up its frame, one that is mapped takes a loose
    frame; kernel pages own nothing.
   */
  lemma SetPteWf(m: Mem, own: seq<Place>, dirs: set<nat>, d: nat, v: nat, w: Word, own': seq<Place>)
    requires Wf(m, own, dirs) && d in dirs && v < 0x10_0000 && HasTable(m, d, v / 1024)
    requires Handover(m, own, own', d, v, w)
    ensures var m' := SetPte(m, d, v, w);
      Wf(m', own', dirs) && SameMapsBut(m, m', dirs, d, v) && Pte(m', d, v) == w
  {
    var m' := SetPte(m, d, v, w);
    forall e, u | e in dirs && 0 <= u < 0x10_0000
      ensures Pte(m', e, u) == (if e == d && u == v then w else Pte(m, e, u)) && m'[e] == m[e]
    {
      SetPteAt(m, own, dirs, d, v, w, e, u);
    }
    forall e | e in dirs ensures m'[e] == m[e] {
      SetPteAt(m, own, dirs, d, v, w, e, 0);
    }
    forall e, j | e in dirs && 0 <= j < 1024 ensures TableOk(m', own', e, j) {
      assert TableOk(m, own, e, j);
    }
    forall e, u | e in dirs && 0 <= u < 0x8_0000 ensures UserOk(m', own', e, u) {
      assert UserOk(m, own, e, u);
    }
    forall f | 0 <= f < |m| ensures PlaceOk(m', own', dirs, f) {
      assert PlaceOk(m, own, dirs, f);
    }
  }

  /** The frame of a user page freed, then its entry cleared. */
  lemma UnmapWf(m: Mem, own: seq<Place>, dirs: set<nat>, d: nat, v: nat, page: Page)
    requires Wf(m, own, dirs) && d in dirs && v < 0x8_0000 && Present(Pte(m, d, v))
    ensures var f := FrameOf(Pte(m, d, v));
      && f < |m| && own[f] == UserOf(d, v) && f != d && HasTable(m[f := page], d, v / 1024)
      && var m' := SetPte(m[f := page], d, v, 0);
      && Wf(m', own[f := OnFreeList], dirs) && SameMapsBut(m, m', dirs, d, v) && Pte(m', d, v) == 0
      && (forall e :: e in dirs ==> m'[e] == m[e])
  {
    assert UserOk(m, own, d, v) && TableOk(m, own, d, v / 1024);
    var f, t := FrameOf(Pte(m, d, v)), FrameOf(m[d][v / 1024]);
    var m1, own1 := SetPte(m, d, v, 0), own[f := Elsewhere];
    forall g | 0 <= g < |m| && own[g] == UserOf(d, v) ensures g == f {
      assert PlaceOk(m, own, dirs, g);
    }
    SetPteWf(m, own, dirs, d, v, 0, own1);
    var m', own' := m1[f := page], own[f := OnFreeList];
    LooseChange(m1, own1, dirs, m', own');
    assert m' == SetPte(m[f := page], d, v, 0);
    forall e | e in dirs ensures m'[e] == m[e] {
      SetPteAt(m, own, dirs, d, v, 0, e, 0);
    }
  }

  // ---------------------------------------------------------------- directories

  lemma NewDirectory(m: Mem, own: seq<Place>, dirs: set<nat>, d: nat)
    requires Wf(m, own, dirs) && d < |m| && own[d] == Elsewhere && m[d] == ZeroPage()
    ensures Wf(m, own[d := Directory], dirs + {d}) && d !in dirs
    ensures forall v :: 0 <= v < 0x10_0000 ==> Pte(m, d, v) == 0
  {
    var own', dirs' := own[d := Directory], dirs + {d};
    assert forall i :: 0 <= i < 1024 ==> m[d][i] == 0;
    forall e, j | e in dirs' && 0 <= j < 1024 ensures TableOk(m, own', e, j) {
      assert e in dirs ==> TableOk(m, own, e, j);
    }
    forall e, v | e in dirs' && 0 <= v < 0x8_0000 ensures UserOk(m, own', e, v) {
      assert e in dirs ==> UserOk(m, own, e, v);
    }
    forall f | 0 <= f < |m| ensures PlaceOk(m, own', dirs', f) {
      assert PlaceOk(m, own, dirs, f);
    }
  }

  /** Whether a frame is directory d, one of its tables or one of its user pages. */
  predicate Belongs(p: Place, f: nat, d: nat) {
    (p == Directory && f == d) || (p.TableOf? && p.d == d) || (p.UserOf? && p.d == d)
  }

  ghost function Disowned(own: seq<Place>, d: nat): (r: seq<Place>)
    ensures |r| == |own|
    ensures forall f :: 0 <= f < |own| ==> r[f] == if Belongs(own[f], f, d) then Elsewhere else own[f]
  {
    seq(|own|, f requires 0 <= f < |own| => if Belongs(own[f], f, d) then Elsewhere else own[f])
  }

  lemma DropDirectory(m: Mem, own: seq<Place>, dirs: set<nat>, d: nat)
    requires Wf(m, own, dirs)
    ensures Wf(m, Disowned(own, d), dirs - {d})
  {
    var own', dirs' := Disowned(own, d), dirs - {d};
    forall e, j | e in dirs' && 0 <= j < 1024 ensures TableOk(m, own', e, j) {
      assert e in dirs && TableOk(m, own, e, j);
    }
    forall e, v | e in dirs' && 0 <= v < 0x8_0000 ensures UserOk(m, own', e, v) {
      assert e in dirs && UserOk(m, own, e, v);
    }
    forall f | 0 <= f < |m| ensures PlaceOk(m, own', dirs', f) {
      assert PlaceOk(m, own, dirs, f);
    }
  }

  /** A user page's frame is in no other place: no other mapping, no table, no directory, not the free list. */
  lemma OnePlace(m: Mem, own: seq<Place>, dirs: set<nat>, d: nat, v: nat, e: nat, u: nat)
    requires Wf(m, own, dirs) && d in dirs && e in dirs && v < 0x8_0000 && u < 0x8_0000
    requires Present(Pte(m, d, v)) && (d != e || v != u)
    ensures Present(Pte(m, e, u)) ==> FrameOf(Pte(m, d, v)) != FrameOf(Pte(m, e, u))
    ensures FrameOf(Pte(m, d, v)) < |own| && FrameOf(Pte(m, d, v)) !in dirs && own[FrameOf(Pte(m, d, v))] != OnFreeList
    ensures forall i: nat :: HasTable(m, e, i) ==> FrameOf(m[e][i]) != FrameOf(Pte(m, d, v))
  {
    assert UserOk(m, own, d, v) && UserOk(m, own, e, u);
    forall i: nat | HasTable(m, e, i) ensures FrameOf(m[e][i]) != FrameOf(Pte(m, d, v)) {
      assert TableOk(m, own, e, i);
    }
  }

  // ---------------------------------------------------------------- the free list

  /** The kernel virtual address of a frame. */
  function Kva(f: nat): Word
    requires f < 0x8_0000
  {
    0x8000_0000 + 4096 * f
  }

  function FrameAt(p: Word): nat
    requires p >= 0x8000_0000
  {
    (p - 0x8000_0000) / 4096
  }

  /** The pointer to element k of the list, null past its end. */
  function PtrTo(free: seq<nat>, k: nat): Word
    requires k < |free| ==> free[k] < 0x8_0000
  {
    if k < |free| then Kva(free[k]) else 0
  }

  ghost predicate NodeOk(m: Mem, own: seq<Place>, free: seq<nat>, k: nat)
    requires k < |free| && |m| == |own| <= 0x8_0000 && forall j :: 0 <= j < |free| ==> free[j] < 0x8_0000
  {
    free[k] < |m| && own[free[k]] == OnFreeList && m[free[k]][0] == PtrTo(free, k + 1)
  }

  /** The list from `head`, linked through the first word of each free page, holds each free frame once. */
  ghost predicate FreeOk(m: Mem, own: seq<Place>, head: Word, free: seq<nat>) {
    && |m| == |own| <= 0x8_0000 && Distinct(free)
    && (forall j :: 0 <= j < |free| ==> free[j] < 0x8_0000)
    && head == PtrTo(free, 0)
    && (forall k :: 0 <= k < |free| ==> NodeOk(m, own, free, k))
    && (forall f :: 0 <= f < |m| && own[f] == OnFreeList ==> f in free)
  }

  lemma PopOk(m: Mem, own: seq<Place>, head: Word, free: seq<nat>)
    requires FreeOk(m, own, head, free) && head != 0
    ensures free != [] && head >= 0x8000_0000 && FrameAt(head) == free[0] < |m| && own[free[0]] == OnFreeList
    ensures FreeOk(m, own[free[0] := Elsewhere], m[free[0]][0], free[1..])
  {
    assert NodeOk(m, own, free, 0);
    var own', free' := own[free[0] := Elsewhere], free[1..];
    forall k | 0 <= k < |free'| ensures NodeOk(m, own', free', k) {
      assert NodeOk(m, own, free, k + 1);
    }
    forall f | 0 <= f < |m| && own'[f] == OnFreeList ensures f in free' {
      assert f in free;
    }
  }

  lemma PushOk(m: Mem, own: seq<Place>, head: Word, free: seq<nat>, f: nat, page: Page)
    requires FreeOk(m, own, head, free) && f < |m| && own[f] != OnFreeList && page[0] == head
    ensures FreeOk(m[f := page], own[f := OnFreeList], Kva(f), [f] + free)
  {
    var m', own', free' := m[f := page], own[f := OnFreeList], [f] + free;
    forall k | 0 <= k < |free| ensures free[k] != f {
      assert NodeOk(m, own, free, k);
    }
    forall k | 0 <= k < |free'| ensures NodeOk(m', own', free', k) {
      if k > 0 {
        assert NodeOk(m, own, free, k - 1);
      }
    }
  }

  /** Changes outside the free list keep it. */
  lemma FreeKept(m: Mem, own: seq<Place>, head: Word, free: seq<nat>, m': Mem, own': seq<Place>)
    requires FreeOk(m, own, head, free) && |m'| == |m| == |own'|
    requires forall f :: 0 <= f < |m| ==> (own'[f] == OnFreeList <==> own[f] == OnFreeList)
    requires forall f :: 0 <= f < |m| && own[f] == OnFreeList ==> m'[f] == m[f]
    ensures FreeOk(m', own', head, free)
  {
    forall k | 0 <= k < |free| ensures NodeOk(m', own', free, k) {
      assert NodeOk(m, own, free, k);
    }
  }

  // ---------------------------------------------------------------- which pages deallocuvm visits

  ghost predicate Blank(m: Mem, d: nat, lo: nat, hi: nat) {
    forall r :: lo <= r < hi ==> !HasTable(m, d, r)
  }

  /**
    deallocuvm from page a0 to page `end` visits the pages that have a table, except those it jumps over:
    it skips a missing table by 1024 pages from wherever it is, so while it has met no table it keeps the
    offset of a0 and misses the pages below that offset in the first table it meets.
   */
  ghost predicate Swept(m: Mem, d: nat, a0: nat, end: nat, v: nat) {
    && a0 <= v < end && HasTable(m, d, v / 1024)
    && !(v % 1024 < a0 % 1024 && Blank(m, d, a0 / 1024, v / 1024))
  }

  /** Where the sweep can be. */
  ghost predicate SweepAt(m: Mem, d: nat, a0: nat, v: nat) {
    && a0 <= v
    && (if Blank(m, d, a0 / 1024, v / 1024)
        then v % 1024 == a0 % 1024 || (HasTable(m, d, v / 1024) && v % 1024 >= a0 % 1024)
        else v % 1024 == 0 || HasTable(m, d, v / 1024))
  }

  lemma SweepPage(m: Mem, d: nat, a0: nat, end: nat, v: nat)
    requires SweepAt(m, d, a0, v) && v < end && HasTable(m, d, v / 1024)
    ensures Swept(m, d, a0, end, v) && SweepAt(m, d, a0, v + 1)
  {
    if (v + 1) % 1024 == 0 {
      assert (v + 1) / 1024 == v / 1024 + 1;
      assert !Blank(m, d, a0 / 1024, (v + 1) / 1024);
    } else {
      assert (v + 1) / 1024 == v / 1024 && (v + 1) % 1024 == v % 1024 + 1;
    }
  }

  lemma SweepJump(m: Mem, d: nat, a0: nat, end: nat, v: nat)
    requires SweepAt(m, d, a0, v) && v < end && !HasTable(m, d, v / 1024)
    ensures SweepAt(m, d, a0, v + 1024)
    ensures forall u :: v <= u < v + 1024 ==> !Swept(m, d, a0, end, u)
  {
    assert (v + 1024) / 1024 == v / 1024 + 1 && (v + 1024) % 1024 == v % 1024;
    BlankMore(m, d, a0 / 1024, v / 1024);
    forall u | v <= u < v + 1024 ensures !Swept(m, d, a0, end, u) {
      assert u / 1024 == v / 1024 || (u / 1024 == v / 1024 + 1 && u % 1024 < v % 1024);
    }
  }

  lemma BlankMore(m: Mem, d: nat, lo: nat, hi: nat)
    requires lo <= hi && !HasTable(m, d, hi)
    ensures Blank(m, d, lo, hi + 1) <==> Blank(m, d, lo, hi)
  {
  }

  /** A sweep that starts on a 4 MB boundary, or in a region that has a table, misses nothing. */
  lemma SweepsAll(m: Mem, d: nat, a0: nat, end: nat, v: nat)
    requires a0 % 1024 == 0 || HasTable(m, d, a0 / 1024)
    ensures Swept(m, d, a0, end, v) <==> a0 <= v < end && HasTable(m, d, v / 1024)
  {
    if a0 <= v && v % 1024 < a0 % 1024 {
      assert a0 / 1024 < v / 1024;
    }
  }

  /**
    The sweep visits every page that has a table exactly when it does not start off a 4 MB boundary, in a
    run of regions without a table that ends below `end` in a region with one.
   */
  lemma SweepComplete(m: Mem, d: nat, a0: nat, end: nat)
    ensures (forall v :: a0 <= v < end && HasTable(m, d, v / 1024) ==> Swept(m, d, a0, end, v)) <==>
      !(a0 % 1024 > 0 && exists r :: a0 / 1024 < r && 1024 * r < end && HasTable(m, d, r) && Blank(m, d, a0 / 1024, r))
  {
    if a0 % 1024 > 0 {
      if r :| a0 / 1024 < r && 1024 * r < end && HasTable(m, d, r) && Blank(m, d, a0 / 1024, r) {
        assert (1024 * r) / 1024 == r && (1024 * r) % 1024 == 0;
        assert !Swept(m, d, a0, end, 1024 * r);
      } else {
        forall v | a0 <= v < end && HasTable(m, d, v / 1024) ensures Swept(m, d, a0, end, v) {
          assert 1024 * (v / 1024) <= v;
          assert v % 1024 < a0 % 1024 ==> a0 / 1024 < v / 1024;
        }
      }
    }
  }
}
