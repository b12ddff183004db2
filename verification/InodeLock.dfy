/**
  Locking an inode (xv6/fs.c): the checksum is verified on first use, a replica is tried when it does not
  match, and `ilock_trans` rescues the file from the replica.

  A process that waits for a busy inode finds the world as the others left it. What they do is a function the
  results hold for whatever it is, as long as it leaves alone what the waiting process holds and the
  replicas of that.
 */
module InodeLock {
  import opened Basics
  import InodeSpec
  import opened Checksum
  import opened Replica
  import opened ReplicaFs

  /** ilock_ext returns 0, the number of a replica to use, or E_CORRUPTED. */
  datatype LockResult = Held | Use(replica: nat) | Corrupted

  /** All inodes, which of them are locked, and which were verified since they came into the cache. */
  datatype World = World(files: Files, busy: seq<bool>, valid: seq<bool>)

  /** The stored checksum matches the content. */
  ghost predicate Good(ip: Inode)
    requires ip.size <= |ip.image|
  {
    Sum(Content(ip)) == ip.sum
  }

  /** The children of every inode are inodes in use and of lower rank. */
  ghost predicate Acyclic(t: Files, rank: seq<nat>) {
    && |rank| == |t| && (forall j :: 0 <= j < |t| ==> Formed(t[j]))
    && (forall p: nat, c: nat :: Ranked(t, rank, p, c))
  }

  ghost predicate Ranked(t: Files, rank: seq<nat>, p: nat, c: nat)
    requires |rank| == |t|
  {
    p < |t| && IsChild(t[p], c) ==> c < |t| && t[c].kind != Unused && rank[c] < rank[p]
  }

  /** Locking would succeed: already verified, or no verification wanted, or the checksum is right. */
  ghost predicate Lockable(t: Files, valid: seq<bool>, i: nat, check: bool)
    requires i < |t| == |valid| && Formed(t[i])
  {
    valid[i] || !check || Good(t[i])
  }

  /** Child c can stand in for i: it has the content i should have, and is itself intact. */
  ghost predicate StandsIn(t: Files, valid: seq<bool>, i: nat, c: nat)
    requires i < |t| == |valid| && forall j :: 0 <= j < |t| ==> Formed(t[j])
  {
    0 < c < |t| && Formed(t[c]) && Sum(Content(t[c])) == t[i].sum && Lockable(t, valid, c, true)
  }

  /** The outcome of locking. Without a first child the second is not looked at. */
  ghost function LockOutcome(t: Files, valid: seq<bool>, i: nat, check: bool): LockResult
    requires i < |t| == |valid| && forall j :: 0 <= j < |t| ==> Formed(t[j])
  {
    if Lockable(t, valid, i, check) then Held
    else if StandsIn(t, valid, i, t[i].child1) then Use(t[i].child1)
    else if t[i].child1 != NONE && StandsIn(t, valid, i, t[i].child2) then Use(t[i].child2)
    else Corrupted
  }

  /** c is a child of i whose content has the checksum stored for i, and its own checksum is right or was verified. */
  ghost predicate IntactReplica(t: Files, valid: seq<bool>, i: nat, c: nat)
    requires i < |t| == |valid| && forall j :: 0 <= j < |t| ==> Formed(t[j])
  {
    && c != 0 && (c == t[i].child1 || c == t[i].child2) && c < |t| && Formed(t[c])
    && Sum(Content(t[c])) == t[i].sum && (valid[c] || Sum(Content(t[c])) == t[c].sum)
  }

  /**
    The inode is held if it was verified before, need not be, or has the checksum stored for it. A replica is named
    only if it is intact, and the first child if that is.
   */
  lemma OutcomeIs(t: Files, valid: seq<bool>, i: nat, check: bool)
    requires i < |t| == |valid| && forall j :: 0 <= j < |t| ==> Formed(t[j])
    ensures var r := LockOutcome(t, valid, i, check);
      && (r.Held? <==> valid[i] || !check || Sum(Content(t[i])) == t[i].sum)
      && (r.Use? ==> IntactReplica(t, valid, i, r.replica))
      && (r.Use? && IntactReplica(t, valid, i, t[i].child1) ==> r.replica == t[i].child1)
  {
  }

  /** A file that a child could stand in for is given up if and only if it has no first child. */
  lemma SecondNeedsFirst(t: Files, valid: seq<bool>, i: nat, c: nat)
    requires i < |t| == |valid| && forall j :: 0 <= j < |t| ==> Formed(t[j])
    requires !Lockable(t, valid, i, true) && IsChild(t[i], c) && StandsIn(t, valid, i, c)
    ensures LockOutcome(t, valid, i, true) == Corrupted <==> t[i].child1 == NONE
  {
    assert c == t[i].child1 || c == t[i].child2;
  }

  /** With children in order, as `create`, `duplicate` and mkfs make them, a file is given up only when it must be. */
  lemma CorruptedExactly(t: Files, valid: seq<bool>, i: nat)
    requires i < |t| == |valid| && forall j :: 0 <= j < |t| ==> Formed(t[j])
    requires FirstThenSecond(t[i])
    ensures LockOutcome(t, valid, i, true) == Corrupted <==>
      !Lockable(t, valid, i, true) && forall c :: IsChild(t[i], c) ==> !StandsIn(t, valid, i, c)
  {
    if LockOutcome(t, valid, i, true) != Corrupted && !Lockable(t, valid, i, true) {
      assert IsChild(t[i], t[i].child1) && (t[i].child2 != NONE ==> IsChild(t[i], t[i].child2));
    }
  }

  /**
    A damaged file, of zeros, whose stored checksum is that of its replica: zeros but for one bit in byte `at`. The
    replica has its own checksum right if `good`.
   */
  ghost function Damaged(size: nat, rsize: nat, at: nat, child1: nat, child2: nat, good: bool): Files
    requires size <= 70656 && at < rsize <= 70656
  {
    var zero: seq<Byte> := seq(70656, _ => ZeroByte());
    var image := zero[at := OneBit()];
    var sum := Sum(image[..rsize]);
    [Inode(Unused, zero, 0, NONE, NONE, ZeroWord()), Inode(Regular, zero, size, child1, child2, sum),
      Inode(Ditto, image, rsize, NONE, NONE, if good then sum else ZeroWord())]
  }

  function OneBit(): (r: Byte)
    ensures r[0]
  {
    ZeroByte()[0 := true]
  }

  lemma {:induction false} ZeroParity(s: seq<Byte>, c: nat, n: nat)
    requires c < 32 && forall p :: 0 <= p < |s| ==> s[p] == ZeroByte()
    ensures !Parity(s, c, n)
    decreases n
  {
    if n > 0 {
      ZeroParity(s, c, n - 1);
    }
  }

  lemma ZeroSum(s: seq<Byte>)
    requires forall p :: 0 <= p < |s| ==> s[p] == ZeroByte()
    ensures Sum(s) == ZeroWord()
  {
    forall c | 0 <= c < 32 ensures !Sum(s)[c] {
      ZeroParity(s, c, WordCount(s));
    }
  }

  lemma DamagedSums(size: nat, rsize: nat, at: nat, child1: nat, child2: nat, good: bool)
    requires size <= 70656 && at < rsize <= 70656
    ensures var t := Damaged(size, rsize, at, child1, child2, good);
      && (forall j :: 0 <= j < |t| ==> Formed(t[j]))
      && !Good(t[1]) && (Good(t[2]) <==> good) && Sum(Content(t[2])) == t[1].sum
  {
    var zero: seq<Byte> := seq(70656, _ => ZeroByte());
    ZeroSum(zero[..size]);
    ZeroSum(zero[..rsize]);
    SingleFlipDetected(zero[..rsize], at, 0);
    assert zero[at := OneBit()][..rsize] == zero[..rsize][at := zero[..rsize][at][0 := !zero[..rsize][at][0]]];
  }

  lemma DamagedTree(size: nat, rsize: nat, at: nat, child1: nat, child2: nat, good: bool)
    requires size <= 70656 && at < rsize <= 70656 && {child1, child2} == {NONE, 2}
    ensures Tree(Damaged(size, rsize, at, child1, child2, good))
  {
  }

  /** A file whose first child number was lost on disk is given up, though its second child is intact. */
  lemma FirstChildLost() returns (t: Files, valid: seq<bool>)
    ensures Tree(t) && |t| == |valid| == 3 && IsChild(t[1], 2) && StandsIn(t, valid, 1, 2)
    ensures LockOutcome(t, valid, 1, true) == Corrupted
  {
    t, valid := Damaged(0, 4, 0, NONE, 2, true), [false, false, false];
    DamagedSums(0, 4, 0, NONE, 2, true);
    DamagedTree(0, 4, 0, NONE, 2, true);
  }

  // ---------------------------------------------------------------- what other processes may do

  /** Inode j is p or, over any number of steps, a child of it. */
  ghost predicate InReach(t: Files, rank: seq<nat>, p: nat, j: nat)
    requires Acyclic(t, rank) && p < |t|
    decreases rank[p]
  {
    assert Ranked(t, rank, p, t[p].child1) && Ranked(t, rank, p, t[p].child2);
    || j == p
    || (t[p].child1 != NONE && InReach(t, rank, t[p].child1, j))
    || (t[p].child2 != NONE && InReach(t, rank, t[p].child2, j))
  }

  /** A process that holds the inodes `mine` keeps the others away from j. */
  ghost predicate Guarded(t: Files, rank: seq<nat>, mine: set<nat>, j: nat)
    requires Acyclic(t, rank)
  {
    exists p :: p in mine && p < |t| && InReach(t, rank, p, j)
  }

  /** No inode changed its kind or its children. */
  ghost predicate SameGraph(t: Files, t': Files) {
    && |t'| == |t| && (forall j :: 0 <= j < |t| ==> Formed(t'[j]))
    && (forall j :: 0 <= j < |t| ==>
      t'[j].kind == t[j].kind && t'[j].child1 == t[j].child1 && t'[j].child2 == t[j].child2)
  }

  lemma GraphKeepsRank(t: Files, t': Files, rank: seq<nat>)
    requires Acyclic(t, rank) && SameGraph(t, t')
    ensures Acyclic(t', rank)
  {
    forall p: nat, c: nat ensures Ranked(t', rank, p, c) {
      assert Ranked(t, rank, p, c);
    }
  }

  lemma {:induction false} ReachSame(t: Files, t': Files, rank: seq<nat>, p: nat, j: nat)
    requires Acyclic(t, rank) && Acyclic(t', rank) && SameGraph(t, t') && p < |t|
    ensures InReach(t, rank, p, j) <==> InReach(t', rank, p, j)
    decreases rank[p]
  {
    assert Ranked(t, rank, p, t[p].child1) && Ranked(t, rank, p, t[p].child2);
    if t[p].child1 != NONE {
      ReachSame(t, t', rank, t[p].child1, j);
    }
    if t[p].child2 != NONE {
      ReachSame(t, t', rank, t[p].child2, j);
    }
  }

  lemma {:induction false} ReachChild(t: Files, rank: seq<nat>, p: nat, j: nat, c: nat)
    requires Acyclic(t, rank) && p < |t| && j < |t| && InReach(t, rank, p, j) && IsChild(t[j], c)
    ensures c < |t| && InReach(t, rank, p, c)
    decreases rank[p]
  {
    assert Ranked(t, rank, p, t[p].child1) && Ranked(t, rank, p, t[p].child2) && Ranked(t, rank, j, c);
    if j == p {
      assert InReach(t, rank, c, c);
    } else if t[p].child1 != NONE && InReach(t, rank, t[p].child1, j) {
      ReachChild(t, rank, t[p].child1, j, c);
    } else {
      ReachChild(t, rank, t[p].child2, j, c);
    }
  }

  lemma GuardsSame(t: Files, t': Files, rank: seq<nat>, mine: set<nat>, j: nat)
    requires Acyclic(t, rank) && Acyclic(t', rank) && SameGraph(t, t')
    ensures Guarded(t, rank, mine, j) <==> Guarded(t', rank, mine, j)
  {
    forall p | p in mine && p < |t| ensures InReach(t, rank, p, j) <==> InReach(t', rank, p, j) {
      ReachSame(t, t', rank, p, j);
    }
  }

  lemma GuardsChild(t: Files, rank: seq<nat>, mine: set<nat>, j: nat, c: nat)
    requires Acyclic(t, rank) && j < |t| && Guarded(t, rank, mine, j) && IsChild(t[j], c)
    ensures c < |t| && Guarded(t, rank, mine, c)
  {
    var p :| p in mine && p < |t| && InReach(t, rank, p, j);
    ReachChild(t, rank, p, j, c);
  }

  /** Locking i does not come to wait for an inode in `held`. */
  ghost predicate NoneHeld(t: Files, rank: seq<nat>, i: nat, held: set<nat>)
    requires Acyclic(t, rank) && i < |t|
  {
    forall j :: j in held ==> !InReach(t, rank, i, j)
  }

  lemma NoneHeldSame(t: Files, t': Files, rank: seq<nat>, i: nat, held: set<nat>)
    requires Acyclic(t, rank) && Acyclic(t', rank) && SameGraph(t, t') && i < |t| && NoneHeld(t, rank, i, held)
    ensures NoneHeld(t', rank, i, held)
  {
    forall j | j in held ensures !InReach(t', rank, i, j) {
      ReachSame(t, t', rank, i, j);
    }
  }

  lemma {:induction false} ReachRank(t: Files, rank: seq<nat>, p: nat, j: nat)
    requires Acyclic(t, rank) && p < |t| && InReach(t, rank, p, j)
    ensures j < |t| && rank[j] <= rank[p]
    decreases rank[p]
  {
    assert Ranked(t, rank, p, t[p].child1) && Ranked(t, rank, p, t[p].child2);
    if j != p {
      if t[p].child1 != NONE && InReach(t, rank, t[p].child1, j) {
        ReachRank(t, rank, t[p].child1, j);
      } else {
        ReachRank(t, rank, t[p].child2, j);
      }
    }
  }

  lemma ReachDown(t: Files, rank: seq<nat>, i: nat, c: nat, j: nat)
    requires Acyclic(t, rank) && i < |t| && IsChild(t[i], c) && c < |t| && InReach(t, rank, c, j)
    ensures InReach(t, rank, i, j)
  {
  }

  lemma NoneHeldChild(t: Files, rank: seq<nat>, i: nat, c: nat, held: set<nat>)
    requires Acyclic(t, rank) && i < |t| && IsChild(t[i], c) && NoneHeld(t, rank, i, held - {i})
    ensures c < |t| && c !in held && NoneHeld(t, rank, c, held)
  {
    assert Ranked(t, rank, i, c);
    assert InReach(t, rank, c, c);
    if j :| j in held && InReach(t, rank, c, j) {
      ReachRank(t, rank, c, j);
      ReachDown(t, rank, i, c, j);
      assert false;
    }
  }

  ghost predicate Sane(w: World, mine: set<nat>) {
    && |w.busy| == |w.valid| == |w.files| && (forall j :: 0 <= j < |w.files| ==> Formed(w.files[j]))
    && (forall j :: j in mine ==> j < |w.busy| && w.busy[j])
  }

  /**
    What holds later, of files t' and verified marks v', for a process that held `mine` all the while: guarded inodes
    are as before, and were verified meanwhile only with a right checksum, but for one locked without a check.
   */
  ghost predicate Kept(t: Files, v: seq<bool>, t': Files, v': seq<bool>, rank: seq<nat>, mine: set<nat>, unchecked: int)
    requires Acyclic(t, rank)
  {
    && |v| == |v'| == |t| && SameGraph(t, t')
    && (forall j :: 0 <= j < |t| && v[j] ==> v'[j])
    && (forall j :: 0 <= j < |t| && Guarded(t, rank, mine, j) ==> t'[j] == t[j])
    && (forall j :: 0 <= j < |t| && Guarded(t, rank, mine, j) && v'[j] && j != unchecked ==> v[j] || Good(t[j]))
  }

  lemma KeptThen(t: Files, v: seq<bool>, t1: Files, v1: seq<bool>, t2: Files, v2: seq<bool>,
                 rank: seq<nat>, mine: set<nat>, mine1: set<nat>, unchecked: int)
    requires Acyclic(t, rank) && Acyclic(t1, rank) && mine <= mine1
    requires Kept(t, v, t1, v1, rank, mine, unchecked) && Kept(t1, v1, t2, v2, rank, mine1, unchecked)
    ensures Kept(t, v, t2, v2, rank, mine, unchecked)
  {
    forall j | 0 <= j < |t| && Guarded(t, rank, mine, j) ensures Guarded(t1, rank, mine1, j) {
      GuardsSame(t, t1, rank, mine, j);
      var p :| p in mine && p < |t1| && InReach(t1, rank, p, j);
    }
  }

  lemma KeptNow(t: Files, v: seq<bool>, rank: seq<nat>, mine: set<nat>)
    requires Acyclic(t, rank) && |v| == |t|
    ensures Kept(t, v, t, v, rank, mine, -1)
  {
  }

  lemma KeptMark(t: Files, v: seq<bool>, t': Files, v': seq<bool>, rank: seq<nat>, mine: set<nat>, i: nat)
    requires Acyclic(t, rank) && Kept(t, v, t', v', rank, mine, -1) && i < |t| && Good(t[i])
    ensures Kept(t, v, t', v'[i := true], rank, mine, -1)
  {
  }

  lemma GuardsSelf(t: Files, rank: seq<nat>, mine: set<nat>, i: nat)
    requires Acyclic(t, rank) && i in mine && i < |t|
    ensures Guarded(t, rank, mine, i)
  {
    assert InReach(t, rank, i, i);
  }

  /** An inode one holds does not change, and whether its child can stand in for it does not either. */
  lemma StandsInStable(t: Files, v: seq<bool>, t': Files, v': seq<bool>, rank: seq<nat>, mine: set<nat>, i: nat, c: nat)
    requires Acyclic(t, rank) && Kept(t, v, t', v', rank, mine, -1) && i in mine && i < |t| && IsChild(t[i], c)
    ensures t'[i] == t[i] && (StandsIn(t', v', i, c) <==> StandsIn(t, v, i, c))
  {
    GuardsSelf(t, rank, mine, i);
    GuardsChild(t, rank, mine, i, c);
  }

  lemma HeldStable(t: Files, v: seq<bool>, t': Files, v': seq<bool>, rank: seq<nat>, mine: set<nat>, i: nat)
    requires Acyclic(t, rank) && Kept(t, v, t', v', rank, mine, -1) && i in mine && i < |t|
    ensures t'[i] == t[i]
  {
    GuardsSelf(t, rank, mine, i);
  }

  /** Locking a child of an inode one holds tells whether the child can stand in, if its content is right. */
  lemma ReplicaTried(t: Files, v: seq<bool>, t1: Files, v1: seq<bool>, t2: Files, v2: seq<bool>,
                     rank: seq<nat>, mine: set<nat>, i: nat, c: nat)
    requires Acyclic(t, rank) && Acyclic(t1, rank) && i in mine && i < |t| && IsChild(t[i], c) && c < |t|
    requires Kept(t, v, t1, v1, rank, mine, -1) && Kept(t1, v1, t2, v2, rank, mine + {c}, -1)
    requires Sum(Content(t[c])) == t[i].sum
    ensures Kept(t, v, t2, v2, rank, mine, -1)
    ensures LockOutcome(t1, v1, c, true).Held? <==> StandsIn(t, v, i, c)
  {
    KeptThen(t, v, t1, v1, t2, v2, rank, mine, mine + {c}, -1);
    StandsInStable(t, v, t1, v1, rank, mine, i, c);
    GuardsSelf(t, rank, mine, i);
    GuardsChild(t, rank, mine, i, c);
  }

  /** What the others may have done to w when a process that holds `mine` has waited for i. */
  ghost predicate Interferes(w: World, w': World, i: nat, mine: set<nat>, rank: seq<nat>)
    requires Acyclic(w.files, rank)
  {
    && Sane(w', mine) && i < |w'.busy| && !w'.busy[i] && Kept(w.files, w.valid, w'.files, w'.valid, rank, mine, -1)
    && (forall j :: 0 <= j < |w.files| && Guarded(w.files, rank, mine, j) ==> w'.valid[j] == w.valid[j])
  }

  /** The n-th time a process that holds `held` waits, for inode i: what the others make of the world w. */
  type Env = (nat, nat, World, set<nat>) -> World

  ghost predicate EnvOk(env: Env) {
    forall n: nat, i: nat, w: World, held: set<nat>, rank: seq<nat> ::
      Sane(w, held) && Acyclic(w.files, rank) && i < |w.busy| && w.busy[i] && i !in held ==>
        Interferes(w, env(n, i, w, held), i, held, rank)
  }

  /** The least they can do: give up the inode. */
  function GiveUp(): Env {
    (n: nat, i: nat, w: World, held: set<nat>) => if i < |w.busy| then w.(busy := w.busy[i := false]) else w
  }

  lemma GivingUpIsAllowed()
    ensures EnvOk(GiveUp())
  {
    forall n: nat, i: nat, w: World, held: set<nat>, rank: seq<nat>
      | Sane(w, held) && Acyclic(w.files, rank) && i < |w.busy| && w.busy[i] && i !in held
      ensures Interferes(w, GiveUp()(n, i, w, held), i, held, rank)
    {
      KeptNow(w.files, w.valid, rank, held);
    }
  }

  class Icache {
    const store: Store
    var busy: seq<bool>
    var valid: seq<bool>
    // the inodes this process holds, and how often it has waited for one
    var mine: set<nat>
    var waits: nat
    const others: Env

    ghost function Here(): World
      reads this, store
    {
      World(store.files, busy, valid)
    }

    /** Nobody else holds an inode. */
    ghost predicate Alone()
      reads this
    {
      forall j :: 0 <= j < |busy| && busy[j] ==> j in mine
    }

    ghost predicate Valid(rank: seq<nat>)
      reads this, store
    {
      EnvOk(others) && Sane(Here(), mine) && Acyclic(store.files, rank)
    }

    constructor (s: Store, env: Env)
      requires forall j :: 0 <= j < |s.files| ==> Formed(s.files[j])
      ensures store == s && others == env && mine == {} && Sane(Here(), mine) && Alone()
      ensures |busy| == |valid| == |s.files| && forall j :: 0 <= j < |valid| ==> !valid[j]
    {
      store, others := s, env;
      busy := seq(|s.files|, _ => false);
      valid := seq(|s.files|, _ => false);
      mine, waits := {}, 0;
    }

    /** Sleeps until the inode is free. */
    method AwaitIdle(i: nat, ghost rank: seq<nat>)
      requires Valid(rank) && i < |busy| && busy[i] && i !in mine
      modifies `busy, `valid, `waits, store
      ensures Valid(rank) && Interferes(old(Here()), Here(), i, mine, rank)
    {
      var w := others(waits, i, World(store.files, busy, valid), mine);
      GraphKeepsRank(store.files, w.files, rank);
      busy, valid, waits := w.busy, w.valid, waits + 1;
      store.files := w.files;
    }

    /** Waits if it must and takes the inode. */
    method Acquire(i: nat, ghost rank: seq<nat>)
      requires Valid(rank) && i < |busy| && i !in mine
      modifies `busy, `valid, `mine, `waits, store
      ensures Valid(rank) && mine == old(mine) + {i} && |busy| == |old(busy)|
      ensures Kept(old(store.files), old(valid), store.files, valid, rank, old(mine), -1)
      ensures old(Alone()) ==> Alone() && store.files == old(store.files) && valid == old(valid)
    {
      KeptNow(store.files, valid, rank, mine);
      if busy[i] {
        AwaitIdle(i, rank);
      }
      busy, mine := busy[i := true], mine + {i};
    }

    method Iunlock(i: nat, ghost rank: seq<nat>)
      requires Valid(rank) && i in mine
      modifies `busy, `mine
      ensures Valid(rank) && mine == old(mine) - {i} && busy == old(busy)[i := false] && (old(Alone()) ==> Alone())
    {
      busy := busy[i := false];
      mine := mine - {i};
    }

    /**
      Ends with the inode held exactly when the result is 0, and holds nothing else that it did not hold. The
      result is the one for the files t1 and verified marks v1 found when the inode was acquired: a replica is
      returned only if its content has the checksum stored for the file and it is intact itself. From
      then on neither the inode nor its replicas change.
     */
    method IlockExt(i: nat, check: bool, ghost rank: seq<nat>)
      returns (r: LockResult, ghost t1: Files, ghost v1: seq<bool>)
      requires Valid(rank) && i < |busy| && i !in mine && store.files[i].kind != Unused
      requires check ==> NoneHeld(store.files, rank, i, mine)
      modifies `busy, `valid, `mine, `waits, store
      ensures Valid(rank) && Acyclic(t1, rank)
      ensures Kept(old(store.files), old(valid), t1, v1, rank, old(mine), -1)
      ensures r == LockOutcome(t1, v1, i, check)
      ensures r.Held? <==> v1[i] || !check || Sum(Content(t1[i])) == t1[i].sum
      ensures r.Use? ==> IntactReplica(t1, v1, i, r.replica)
      ensures r.Use? && IntactReplica(t1, v1, i, t1[i].child1) ==> r.replica == t1[i].child1
      ensures mine == old(mine) + (if r.Held? then {i} else {})
      ensures r.Held? ==> valid[i]
      ensures Kept(t1, v1, store.files, valid, rank, old(mine) + {i}, if check then -1 else i)
      ensures old(Alone()) ==> Alone() && store.files == t1 == old(store.files) && v1 == old(valid)
      decreases rank[i]
    {
      ghost var t, held := store.files, mine;
      Acquire(i, rank);
      t1, v1 := store.files, valid;
      KeptNow(t1, v1, rank, held + {i});
      OutcomeIs(t1, v1, i, check);
      if valid[i] {
        return Held, t1, v1;
      }
      if !check {
        valid := valid[i := true];
        return Held, t1, v1;
      }
      NoneHeldSame(t, t1, rank, i, held);
      assert mine - {i} == held;
      r := Verify(i, rank);
    }

    /** The retry loop: the file itself, then its children in turn. */
    method Verify(i: nat, ghost rank: seq<nat>) returns (r: LockResult)
      requires Valid(rank) && i < |busy| && i in mine && !valid[i] && NoneHeld(store.files, rank, i, mine - {i})
      modifies `busy, `valid, `mine, `waits, store
      ensures Valid(rank) && r == LockOutcome(old(store.files), old(valid), i, true)
      ensures mine == (if r.Held? then old(mine) else old(mine) - {i}) && (r.Held? ==> valid[i])
      ensures Kept(old(store.files), old(valid), store.files, valid, rank, old(mine), -1)
      ensures old(Alone()) ==> Alone() && store.files == old(store.files)
      decreases rank[i], 1
    {
      ghost var t, v := store.files, valid;
      KeptNow(t, v, rank, mine);
      var replica := 0;
      while true
        invariant 0 <= replica <= 2 && Valid(rank) && mine == old(mine)
        invariant Kept(t, v, store.files, valid, rank, mine, -1)
        invariant old(Alone()) ==> Alone() && store.files == t
        invariant replica > 0 ==> !Good(t[i]) && t[i].child1 != NONE && !StandsIn(t, v, i, t[i].child1)
        invariant replica == 2 ==> t[i].child2 != NONE && !StandsIn(t, v, i, t[i].child2)
        decreases 2 - replica
      {
        HeldStable(t, v, store.files, valid, rank, mine, i);
        var sum := Ichecksum(Content(store.files[i]));
        if sum == store.files[i].sum {
          KeptMark(t, v, store.files, valid, rank, mine, i);
          valid := valid[i := true];
          return Held;
        }
        replica := replica + 1;
        var c := if replica == 1 then store.files[i].child1 else if replica == 2 then store.files[i].child2 else NONE;
        if c == NONE {
          Iunlock(i, rank);
          return Corrupted;
        }
        ghost var t1, v1 := store.files, valid;
        StandsInStable(t, v, t1, v1, rank, mine, i, c);
        NoneHeldSame(t, t1, rank, i, mine - {i});
        var ok := TryReplica(i, c, rank);
        KeptThen(t, v, t1, v1, store.files, valid, rank, mine, mine, -1);
        if ok {
          Iunlock(i, rank);
          return Use(c);
        }
      }
    }

    /** Whether a child has the right content and can itself be locked; it is released again. */
    method TryReplica(i: nat, c: nat, ghost rank: seq<nat>) returns (ok: bool)
      requires Valid(rank) && i < |busy| && i in mine && IsChild(store.files[i], c)
      requires NoneHeld(store.files, rank, i, mine - {i})
      modifies `busy, `valid, `mine, `waits, store
      ensures Valid(rank) && mine == old(mine) && ok == StandsIn(old(store.files), old(valid), i, c)
      ensures Kept(old(store.files), old(valid), store.files, valid, rank, mine, -1)
      ensures old(Alone()) ==> Alone() && store.files == old(store.files)
      decreases rank[i], 0
    {
      ghost var t, v, held := store.files, valid, mine;
      assert Ranked(t, rank, i, c);
      var sum := Ichecksum(Content(store.files[c]));
      if sum != store.files[i].sum {
        KeptNow(t, v, rank, mine);
        return false;
      }
      NoneHeldChild(t, rank, i, c, mine);
      var r, t1, v1 := IlockExt(c, true, rank);
      ReplicaTried(t, v, t1, v1, store.files, valid, rank, held, i, c);
      if r.Held? {
        Iunlock(c, rank);
        assert mine == held;
      }
      return r.Held?;
    }

    /**
      Copies the replica back over the file, one chunk per transaction, with both locked; `before` and `after` are the
      files when both were locked and when the copy was done.
     */
    method Irescue(i: nat, c: nat, ghost rank: seq<nat>) returns (ghost before: Files, ghost after: Files)
      requires Valid(rank) && i < |busy| && c < |busy| && i != c && i !in mine && c !in mine && Tree(store.files)
      requires store.files[i].kind == Regular && store.files[c].kind != Unused
      modifies `busy, `valid, `mine, `waits, store
      ensures Valid(rank) && mine == old(mine) && valid[i] && SameGraph(old(store.files), store.files)
      ensures Rescued(before, after, i, c) && store.files == after
      ensures forall j :: 0 <= j < |valid| && old(valid)[j] ==> valid[j]
      ensures old(Alone()) ==> Alone() && before == old(store.files)
    {
      ghost var t, held := store.files, mine;
      LockBoth(i, c, rank);
      before := store.files;
      TreeKept(t, before);
      RescueCopy(i, c);
      after := store.files;
      RescueKeepsGraph(before, after, i, c);
      GraphKeepsRank(before, after, rank);
      UnlockBoth(i, c, held, rank);
    }

    method LockBoth(i: nat, c: nat, ghost rank: seq<nat>)
      requires Valid(rank) && i < |busy| && c < |busy| && i != c && i !in mine && c !in mine
      requires store.files[i].kind != Unused && store.files[c].kind != Unused
      modifies `busy, `valid, `mine, `waits, store
      ensures Valid(rank) && mine == old(mine) + {c} + {i} && valid[i] && SameGraph(old(store.files), store.files)
      ensures forall j :: 0 <= j < |valid| && old(valid)[j] ==> valid[j]
      ensures old(Alone()) ==> Alone() && store.files == old(store.files)
    {
      var l, t1, v1 := IlockExt(c, false, rank);
      l, t1, v1 := IlockExt(i, false, rank);
    }

    method UnlockBoth(i: nat, c: nat, ghost held: set<nat>, ghost rank: seq<nat>)
      requires Valid(rank) && i != c && i !in held && c !in held && mine == held + {c} + {i}
      modifies `busy, `mine
      ensures Valid(rank) && mine == held && (old(Alone()) ==> Alone())
    {
      Iunlock(c, rank);
      Iunlock(i, rank);
    }

    method RescueCopy(i: nat, c: nat)
      requires i < |store.files| && c < |store.files| && i != c && Tree(store.files)
      requires store.files[i].kind == Regular
      modifies store
      ensures Rescued(old(store.files), store.files, i, c)
    {
      ghost var t, chunks := store.files, 0;
      var k, n := 0, store.files[i].size;
      while k < n
        invariant 0 <= k <= n <= 70656 && (k < n ==> k == 3072 * chunks) && Tree(store.files)
        invariant RescuedTo(t, store.files, i, c, k)
        decreases n - k
      {
        var n1 := if n - k > RESCUE then RESCUE else n - k;
        RescueChunk(t, i, c, chunks, k, n1);
        k, chunks := k + n1, chunks + 1;
      }
    }

    method RescueChunk(ghost t: Files, i: nat, c: nat, ghost chunks: nat, k: nat, n1: nat)
      requires i < |t| && i != c && t[i].kind == Regular && Tree(store.files) && RescuedTo(t, store.files, i, c, k)
      requires k == 3072 * chunks && 0 < n1 <= 3072 && k + n1 <= 70656
      modifies store
      ensures Tree(store.files) && RescuedTo(t, store.files, i, c, k + n1)
    {
      RescueMore(t[i], t[c], chunks, k, n1);
      store.Iduplicate(c, i, k, n1);
    }

    /**
      Never panics: after a rescue the inode counts as verified. Holds it exactly on success; fails exactly when, as
      found (files t1, marks v1), neither the file nor a replica of it is intact. A rescue happens exactly when
      a replica could stand in, from one whose content had the checksum stored for the file, the first if that was
      such; it makes `after` of the files `before`.
     */
    method IlockTrans(i: nat, ghost rank: seq<nat>)
      returns (r: LockResult, ghost t1: Files, ghost v1: seq<bool>, ghost from: nat, ghost before: Files,
               ghost after: Files)
      requires Valid(rank) && i < |busy| && i !in mine && Tree(store.files) && store.files[i].kind == Regular
      requires NoneHeld(store.files, rank, i, mine)
      modifies `busy, `valid, `mine, `waits, store
      ensures Valid(rank) && !r.Use? && mine == old(mine) + (if r.Held? then {i} else {}) && (r.Held? ==> valid[i])
      ensures Acyclic(t1, rank) && Kept(old(store.files), old(valid), t1, v1, rank, old(mine), -1)
      ensures r.Corrupted? <==> LockOutcome(t1, v1, i, true).Corrupted?
      ensures from != NONE <==> LockOutcome(t1, v1, i, true).Use?
      ensures from != NONE ==> IntactReplica(t1, v1, i, from) && Rescued(before, after, i, from)
      ensures from != NONE && IntactReplica(t1, v1, i, t1[i].child1) ==> from == t1[i].child1
      ensures old(Alone()) ==> t1 == old(store.files) && v1 == old(valid)
      ensures old(Alone()) && from != NONE ==> before == old(store.files) && store.files == after
      ensures old(Alone()) && from == NONE ==> store.files == old(store.files)
    {
      ghost var t := store.files;
      r, t1, v1 := IlockExt(i, true, rank);
      before, after, from := t1, t1, if r.Use? then r.replica else NONE;
      if r.Use? {
        TreeKept(t, t1);
        TreeKept(t1, store.files);
        NoneHeldSame(t, store.files, rank, i, mine);
        r, before, after := RescueAndLock(i, r.replica, rank);
      }
    }

    method RescueAndLock(i: nat, c: nat, ghost rank: seq<nat>)
      returns (r: LockResult, ghost before: Files, ghost after: Files)
      requires Valid(rank) && i < |busy| && i !in mine && Tree(store.files) && store.files[i].kind == Regular
      requires IsChild(store.files[i], c) && NoneHeld(store.files, rank, i, mine)
      modifies `busy, `valid, `mine, `waits, store
      ensures Valid(rank) && r.Held? && mine == old(mine) + {i} && valid[i] && Rescued(before, after, i, c)
      ensures old(Alone()) ==> Alone() && before == old(store.files) && store.files == after
    {
      ghost var t, held := store.files, mine;
      assert ChildOk(t, i, c) && held - {i} == held;
      NoneHeldChild(t, rank, i, c, held);
      before, after := Irescue(i, c, rank);
      NoneHeldSame(t, store.files, rank, i, held);
      ghost var t1, v1;
      r, t1, v1 := IlockExt(i, true, rank);
    }
  }

  lemma RescueKeepsGraph(t: Files, t': Files, i: nat, c: nat)
    requires Rescued(t, t', i, c) && forall j :: 0 <= j < |t| ==> Formed(t[j])
    ensures SameGraph(t, t')
  {
  }

  /** File i after a rescue from c; nothing else changed. */
  ghost predicate Rescued(t: Files, t': Files, i: nat, c: nat) {
    i < |t| && RescuedTo(t, t', i, c, t[i].size)
  }

  /** After the first k bytes of it. */
  ghost predicate RescuedTo(t: Files, t': Files, i: nat, c: nat, k: nat) {
    && i < |t| && c < |t| && Formed(t[i]) && Formed(t[c])
    && t' == t[i := RescueOf(t[i], t[c], k)]
  }

  /** Where the chunk that ends at k > 0 starts. */
  function ChunkStart(k: nat): (r: nat)
    requires k > 0
    ensures r < k
  {
    if k <= 3072 then 0 else 3072 + ChunkStart(k - 3072)
  }

  lemma {:induction false} ChunksThen(chunks: nat, n: nat)
    requires 0 < n <= 3072
    ensures ChunkStart(3072 * chunks + n) == 3072 * chunks
  {
    if chunks > 0 {
      ChunksThen(chunks - 1, n);
    }
  }

  /**
    File d after the first k bytes of its extent were copied from s in chunks: with nothing copied it is as before;
    else it has the size of s, and the bytes of s up to the end of the last block. The checksum is computed
    from the content, unless the last chunk starts past the end of s: then it is the one stored for s.
   */
  ghost function RescueOf(d: Inode, s: Inode, k: nat): (r: Inode)
    requires Formed(d) && Formed(s)
    ensures Formed(r)
  {
    if k == 0 then d
    else
      var image := InodeSpec.Splice(d.image, 0, s.image[..Min(s.size, RoundUp(k))]);
      d.(image := image, size := s.size, sum := if ChunkStart(k) < s.size then Sum(image[..s.size]) else s.sum)
  }

  /** One more chunk, where all chunks before were whole. */
  lemma RescueMore(d: Inode, s: Inode, chunks: nat, k: nat, n1: nat)
    requires Formed(d) && Formed(s) && d.kind == Regular
    requires k == 3072 * chunks && 0 < n1 <= 3072 && k + n1 <= 70656
    ensures CopyOf(s, RescueOf(d, s, k), k, n1) == RescueOf(d, s, k + n1)
  {
    ChunkEnds(s.size, chunks, k, n1);
    TakeOver(d.image, s.image, Min(k, s.size), CopyEnd(s.size, k, n1));
  }

  /** Taking over a beginning, then what follows it. */
  lemma TakeOver(a: seq<Byte>, b: seq<Byte>, o: nat, e: nat)
    requires o <= e <= |a| == |b|
    ensures InodeSpec.Splice(InodeSpec.Splice(a, 0, b[..o]), o, b[o..e]) == InodeSpec.Splice(a, 0, b[..e])
    ensures o == 0 ==> InodeSpec.Splice(a, 0, b[..o]) == a
  {
    assert b[..o] + b[o..e] == b[..e];
    SpliceTwice(a, 0, b[..o], b[o..e]);
    if o == 0 {
      assert b[..0] == [];
      SpliceNone(a, 0);
    }
  }

  lemma ChunkEnds(size: nat, chunks: nat, k: nat, n1: nat)
    requires k == 3072 * chunks && 0 < n1 <= 3072 && k + n1 <= 70656
    ensures ChunkStart(k + n1) == k && RoundUp(k) == k
    ensures CopyEnd(size, k, n1) == Min(size, RoundUp(k + n1))
    ensures k < size ==> k < CopyEnd(size, k, n1)
  {
    BlocksThen(6 * chunks, n1);
    BlocksThen(6 * chunks, 0);
    ChunksThen(chunks, n1);
  }

  /**
    A rescue gives the file the content of the replica if and only if the replica does not reach past the last
    block of the file, or the bytes there agree already; an empty file is rescued only from an empty replica.
   */
  lemma RescueRestores(d: Inode, s: Inode, d': Inode)
    requires Formed(d) && Formed(s) && d' == RescueOf(d, s, d.size)
    ensures Content(d') == Content(s) <==>
      if d.size == 0 then s.size == 0
      else s.size <= RoundUp(d.size) || d.image[RoundUp(d.size)..s.size] == s.image[RoundUp(d.size)..s.size]
  {
    if d.size > 0 {
      var e := RoundUp(d.size);
      if s.size <= e || d.image[e..s.size] == s.image[e..s.size] {
        forall p | 0 <= p < s.size ensures d'.image[p] == s.image[p] {
          assert p >= e ==> d.image[e..s.size][p - e] == s.image[e..s.size][p - e];
        }
        assert Content(d') == Content(s);
      } else {
        var p :| 0 <= p < s.size - e && d.image[e..s.size][p] != s.image[e..s.size][p];
        assert Content(d')[e + p] != Content(s)[e + p];
      }
    }
  }

  /** Byte by byte: the replica's up to the end of the file's last block, the file's own past that or its end. */
  lemma RescueBytes(d: Inode, s: Inode, d': Inode, p: nat)
    requires Formed(d) && Formed(s) && d' == RescueOf(d, s, d.size) && p < 70656
    ensures d.size == 0 ==> d' == d
    ensures d.size > 0 ==> d'.size == s.size && d'.kind == d.kind && d'.child1 == d.child1 && d'.child2 == d.child2
    ensures d.size > 0 ==>
      d'.image[p] == if p < s.size && p < (d.size + 511) / 512 * 512 then s.image[p] else d.image[p]
  {
    RoundUpIs(d.size);
  }

  /** A file that lost its second block is not rescued from an intact replica that has one. */
  lemma RescueFallsShort() returns (t: Files, valid: seq<bool>)
    ensures Tree(t) && |t| == |valid| == 3 && LockOutcome(t, valid, 1, true) == Use(2)
    ensures t[1].size == 512 && Content(RescueOf(t[1], t[2], t[1].size)) != Content(t[2])
  {
    t, valid := Damaged(512, 1024, 600, 2, NONE, true), [false, false, false];
    DamagedSums(512, 1024, 600, 2, NONE, true);
    DamagedTree(512, 1024, 600, 2, NONE, true);
    assert t[1].image[512..1024][88] == ZeroByte() && t[2].image[512..1024][88] == OneBit();
    RescueRestores(t[1], t[2], RescueOf(t[1], t[2], 512));
  }

  /** Nor is a file that lost its size: it stays empty, with the wrong checksum. */
  lemma EmptyStaysEmpty() returns (t: Files, valid: seq<bool>)
    ensures Tree(t) && |t| == |valid| == 3 && LockOutcome(t, valid, 1, true) == Use(2)
    ensures t[1].size == 0 < t[2].size
    ensures var d := RescueOf(t[1], t[2], t[1].size); Content(d) != Content(t[2]) && !Good(d)
  {
    t, valid := Damaged(0, 4, 0, 2, NONE, true), [false, false, false];
    DamagedSums(0, 4, 0, 2, NONE, true);
    DamagedTree(0, 4, 0, 2, NONE, true);
  }

  /**
    Rescued from a replica that ends before the last chunk and was verified before its own checksum went bad, a
    file takes over the bad checksum.
   */
  lemma BadSumTaken() returns (t: Files, valid: seq<bool>)
    ensures Tree(t) && |t| == |valid| == 3 && LockOutcome(t, valid, 1, true) == Use(2)
    ensures t[1].size != 0 && !Good(RescueOf(t[1], t[2], t[1].size))
  {
    t, valid := Damaged(4096, 4, 0, 2, NONE, false), [false, false, true];
    DamagedSums(4096, 4, 0, 2, NONE, false);
    DamagedTree(4096, 4, 0, 2, NONE, false);
    RescueChecksum(t[1], t[2], RescueOf(t[1], t[2], 4096));
  }

  /** The stored checksum is right afterwards, but for an empty file or a replica that ends before the last chunk. */
  lemma RescueChecksum(d: Inode, s: Inode, d': Inode)
    requires Formed(d) && Formed(s) && d' == RescueOf(d, s, d.size)
    ensures Good(d') <==>
      if d.size == 0 then Good(d) else ChunkStart(d.size) < s.size || Good(s)
  {
    if d.size > 0 && ChunkStart(d.size) >= s.size {
      RescueRestores(d, s, d');
    }
  }
}
