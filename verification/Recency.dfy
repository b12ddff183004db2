/**
  What an LRU cache holds after a run of page references: the most recent distinct pages, most recent
  first, capped at the number of frames (xv6/hashbuf.c).
 */
module Recency {
  import opened Basics

  function Without(q: seq<nat>, p: nat): seq<nat> {
    if q == [] then []
    else if q[0] == p then Without(q[1..], p)
    else [q[0]] + Without(q[1..], p)
  }

  function Take(q: seq<nat>, n: nat): seq<nat> {
    if |q| <= n then q else q[..n]
  }

  /** One reference: the page moves or comes to the front; what falls off the end is evicted. */
  function Touch(q: seq<nat>, p: nat, frames: nat): seq<nat> {
    Take([p] + Without(q, p), frames)
  }

  /** The cache after a run of references. */
  function Cache(rs: seq<nat>, frames: nat): seq<nat> {
    if rs == [] then [] else Touch(Cache(rs[..|rs| - 1], frames), rs[|rs| - 1], frames)
  }

  // ---------------------------------------------------------------- the reference definition

  /** Page p was last referenced at position k. */
  ghost predicate LastUsedAt(rs: seq<nat>, p: nat, k: nat) {
    k < |rs| && rs[k] == p && forall j :: k < j < |rs| ==> rs[j] != p
  }

  /** The position of the last use of each page of q. */
  ghost predicate UsesAt(q: seq<nat>, rs: seq<nat>, at: seq<nat>) {
    |at| == |q| && forall i :: 0 <= i < |q| ==> LastUsedAt(rs, q[i], at[i])
  }

  ghost predicate Decreasing(at: seq<nat>) {
    forall i, j :: 0 <= i < j < |at| ==> at[i] > at[j]
  }

  /** All pages referenced, each once, most recently used first. */
  ghost predicate ByRecency(q: seq<nat>, rs: seq<nat>) {
    && (exists at: seq<nat> :: UsesAt(q, rs, at) && Decreasing(at))
    && (forall j :: 0 <= j < |rs| ==> rs[j] in q)
  }

  function AllRecent(rs: seq<nat>): seq<nat> {
    if rs == [] then [] else [rs[|rs| - 1]] + Without(AllRecent(rs[..|rs| - 1]), rs[|rs| - 1])
  }

  /** The positions of the pages other than p. */
  function WithoutUses(q: seq<nat>, at: seq<nat>, p: nat): seq<nat>
    requires |at| == |q|
  {
    if q == [] then []
    else if q[0] == p then WithoutUses(q[1..], at[1..], p)
    else [at[0]] + WithoutUses(q[1..], at[1..], p)
  }

  lemma {:induction false} WithoutUsesOk(q: seq<nat>, rs: seq<nat>, at: seq<nat>, p: nat)
    requires UsesAt(q, rs, at) && Decreasing(at)
    ensures UsesAt(Without(q, p), rs + [p], WithoutUses(q, at, p)) && Decreasing(WithoutUses(q, at, p))
    ensures forall i :: 0 <= i < |WithoutUses(q, at, p)| ==> WithoutUses(q, at, p)[i] <= at[0]
    decreases |q|
  {
    if q != [] {
      WithoutUsesOk(q[1..], rs, at[1..], p);
      if q[0] != p {
        assert LastUsedAt(rs, q[0], at[0]);
        assert LastUsedAt(rs + [p], q[0], at[0]);
        UsesCons(q[0], Without(q[1..], p), rs + [p], at[0], WithoutUses(q[1..], at[1..], p));
      }
    }
  }

  lemma UsesCons(x: nat, q: seq<nat>, rs: seq<nat>, k: nat, at: seq<nat>)
    requires LastUsedAt(rs, x, k) && UsesAt(q, rs, at) && Decreasing(at) && forall i :: 0 <= i < |at| ==> at[i] < k
    ensures UsesAt([x] + q, rs, [k] + at) && Decreasing([k] + at)
  {
  }

  lemma {:induction false} WithoutKeeps(q: seq<nat>, p: nat, x: nat)
    requires x in q && x != p
    ensures x in Without(q, p)
    decreases |q|
  {
    if q[0] != x {
      WithoutKeeps(q[1..], p, x);
    }
  }

  lemma ByRecencyNext(q: seq<nat>, rs: seq<nat>, p: nat)
    requires ByRecency(q, rs)
    ensures ByRecency([p] + Without(q, p), rs + [p])
  {
    var at :| UsesAt(q, rs, at) && Decreasing(at);
    var w, at' := Without(q, p), WithoutUses(q, at, p);
    WithoutUsesOk(q, rs, at, p);
    assert LastUsedAt(rs + [p], p, |rs|);
    forall i | 0 <= i < |at'| ensures at'[i] < |rs| {
      assert q != [] && LastUsedAt(rs, q[0], at[0]);
    }
    UsesCons(p, w, rs + [p], |rs|, at');
    forall j | 0 <= j <= |rs| ensures (rs + [p])[j] in [p] + w {
      if j < |rs| && rs[j] != p {
        WithoutKeeps(q, p, rs[j]);
      }
    }
  }

  lemma {:induction false} AllRecentByRecency(rs: seq<nat>)
    ensures ByRecency(AllRecent(rs), rs)
  {
    if rs == [] {
      assert UsesAt([], rs, []) && Decreasing([]);
    } else {
      var n := |rs| - 1;
      AllRecentByRecency(rs[..n]);
      assert rs == rs[..n] + [rs[n]];
      ByRecencyNext(AllRecent(rs[..n]), rs[..n], rs[n]);
    }
  }

  // ---------------------------------------------------------------- capping

  lemma TakeCons(a: nat, w: seq<nat>, n: nat)
    requires n > 0
    ensures Take([a] + w, n) == [a] + Take(w, n - 1)
  {
  }

  lemma WithoutCons(a: nat, w: seq<nat>, p: nat)
    ensures Without([a] + w, p) == if a == p then Without(w, p) else [a] + Without(w, p)
  {
    assert ([a] + w)[1..] == w;
  }

  lemma {:induction false} WithoutAbsent(q: seq<nat>, p: nat)
    requires p !in q
    ensures Without(q, p) == q
    decreases |q|
  {
    if q != [] {
      WithoutAbsent(q[1..], p);
    }
  }

  lemma {:induction false} WithoutTake(q: seq<nat>, p: nat, n: nat)
    requires p !in Take(q, n)
    ensures Take(Without(q, p), n) == Take(q, n)
    decreases |q|
  {
    if q != [] && n > 0 {
      var a, w := q[0], q[1..];
      assert q == [a] + w;
      TakeCons(a, w, n);
      WithoutCons(a, w, p);
      assert p !in Take(w, n - 1) && a != p;
      WithoutTake(w, p, n - 1);
      TakeCons(a, Without(w, p), n);
    }
  }

  /** Removing a page before capping, one frame less, or after capping is the same when it is in the cap. */
  lemma {:induction false} WithoutInTake(q: seq<nat>, p: nat, n: nat)
    requires Distinct(q) && p in Take(q, n) && n > 0
    ensures Take(Without(q, p), n - 1) == Without(Take(q, n), p)
    decreases |q|
  {
    var a, w := q[0], q[1..];
    assert q == [a] + w && a !in w;
    TakeCons(a, w, n);
    WithoutCons(a, w, p);
    WithoutCons(a, Take(w, n - 1), p);
    if a == p {
      WithoutAbsent(w, p);
      WithoutAbsent(Take(w, n - 1), p);
    } else {
      WithoutInTake(w, p, n - 1);
      TakeCons(a, Without(w, p), n - 1);
    }
  }

  lemma {:induction false} WithoutLength(q: seq<nat>, p: nat)
    requires p in q
    ensures |Without(q, p)| < |q|
    decreases |q|
  {
    if q[0] != p {
      WithoutLength(q[1..], p);
    } else if p in q[1..] {
      WithoutLength(q[1..], p);
    } else {
      WithoutAbsent(q[1..], p);
    }
  }

  /** Pages by recency are distinct: their last uses are. */
  lemma ByRecencyDistinct(q: seq<nat>, rs: seq<nat>)
    requires ByRecency(q, rs)
    ensures Distinct(q)
  {
    var at :| UsesAt(q, rs, at) && Decreasing(at);
    forall i, j | 0 <= i < j < |q| ensures q[i] != q[j] {
      assert LastUsedAt(rs, q[i], at[i]) && LastUsedAt(rs, q[j], at[j]);
    }
  }

  /** Touching the capped list is capping the touched one. */
  lemma TouchCapped(q: seq<nat>, p: nat, frames: nat)
    requires Distinct(q) && frames > 0
    ensures Touch(Take(q, frames), p, frames) == Take([p] + Without(q, p), frames)
  {
    var t := Take(q, frames);
    TakeCons(p, Without(t, p), frames);
    TakeCons(p, Without(q, p), frames);
    if p in t {
      WithoutInTake(q, p, frames);
      WithoutLength(t, p);
    } else {
      WithoutAbsent(t, p);
      assert p !in Take(q, frames - 1);
      WithoutTake(q, p, frames - 1);
      assert Take(t, frames - 1) == Take(q, frames - 1);
    }
  }

  /** After any run of references the cache is the most recent distinct pages, in order, capped. */
  lemma {:induction false} CacheIsMostRecent(rs: seq<nat>, frames: nat)
    requires frames > 0
    ensures Cache(rs, frames) == Take(AllRecent(rs), frames)
    ensures ByRecency(AllRecent(rs), rs)
  {
    AllRecentByRecency(rs);
    if rs != [] {
      var n := |rs| - 1;
      CacheIsMostRecent(rs[..n], frames);
      ByRecencyDistinct(AllRecent(rs[..n]), rs[..n]);
      TouchCapped(AllRecent(rs[..n]), rs[n], frames);
    }
  }
}
