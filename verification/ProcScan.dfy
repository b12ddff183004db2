/**
  The table-scanning loops of xv6/proc.c, run in place on the process table and proved to compute the
  steps of ProcTable.
 */
module ProcScan {
  import opened Basics
  import opened ProcTable

  /** How one pass of wait ends: a pid, the return value -1, or another sleep. */
  datatype WaitResult = Found(q: nat, pid: nat) | NoChild | MustSleep

  class PTable {
    var procs: seq<Proc>
    var nextpid: nat
    const init: nat

    /** Every process asleep on the channel, and no other, becomes runnable. */
    method Wakeup1(c: Chan)
      modifies `procs
      ensures procs == Woken(old(procs), c) && |procs| == |old(procs)|
      ensures forall q :: 0 <= q < |procs| ==>
        Moved(old(procs)[q], procs[q], if old(procs)[q].state == Sleeping(c) then Runnable else old(procs)[q].state)
    {
      var k := 0;
      while k < |procs|
        invariant 0 <= k <= |procs| == |old(procs)|
        invariant forall q :: 0 <= q < |procs| ==>
          procs[q] == if q < k then WakeOne(old(procs)[q], c) else old(procs)[q]
      {
        if procs[k].state == Sleeping(c) {
          procs := procs[k := procs[k].(state := Runnable)];
        }
        k := k + 1;
      }
    }

    /** The locked part of allocproc: the first unused slot becomes an embryo with the next pid. */
    method AllocProc() returns (r: Option<nat>)
      modifies `procs, `nextpid
      ensures r.None? <==> forall q :: 0 <= q < |old(procs)| ==> old(procs)[q].state != Unused
      ensures r.None? ==> procs == old(procs) && nextpid == old(nextpid)
      ensures r.Some? ==> r.value < |old(procs)| && old(procs)[r.value].state == Unused && nextpid == old(nextpid) + 1
      ensures r.Some? ==> forall q :: 0 <= q < r.value ==> old(procs)[q].state != Unused
      ensures r.Some? ==> procs == old(procs)[r.value := old(procs)[r.value].(state := Embryo, pid := old(nextpid))]
    {
      var k := 0;
      while k < |procs|
        invariant 0 <= k <= |procs| && procs == old(procs) && nextpid == old(nextpid)
        invariant forall q :: 0 <= q < k ==> procs[q].state != Unused
      {
        if procs[k].state == Unused {
          procs := procs[k := procs[k].(state := Embryo, pid := nextpid)];
          nextpid := nextpid + 1;
          return Some(k);
        }
        k := k + 1;
      }
      return None;
    }

    /** exit, from taking ptable.lock to the call of sched. */
    method Exit(p: nat)
      requires p < |procs| && procs[p].parent.Some?
      modifies `procs
      ensures procs == Exited(old(procs), p, init)
    {
      ghost var ps := procs;
      Wakeup1(OnProc(procs[p].parent.value));
      ghost var ps1 := procs;
      ghost var woke := false;
      var k := 0;
      while k < |procs|
        invariant 0 <= k <= |procs| == |ps| && (woke <==> exists r: nat :: r < k && ZombieChild(ps, p, r))
        invariant forall q :: 0 <= q < |ps| ==> procs[q] == PassedOn(ps1[q], q < k, woke, p, init)
      {
        if procs[k].parent == Some(p) {
          procs := procs[k := procs[k].(parent := Some(init))];
          if procs[k].state == Zombie {
            assert ZombieChild(ps, p, k);
            woke := true;
            Wakeup1(OnProc(init));
          }
        }
        k := k + 1;
      }
      assert woke <==> HasZombie(ps, p);
      assert procs == if woke then Woken(Adopted(ps1, p, init), OnProc(init)) else Adopted(ps1, p, init);
      procs := procs[p := procs[p].(state := Zombie)];
    }

    /** One pass of wait's loop over the table. */
    method Wait(p: nat) returns (r: WaitResult)
      requires p < |procs|
      modifies `procs
      ensures r.Found? <==> HasZombie(old(procs), p)
      ensures r.Found? ==> FirstZombie(old(procs), p, r.q) && r.pid == old(procs)[r.q].pid
      ensures r.Found? ==> old(procs)[r.q].parent == Some(p) && old(procs)[r.q].state == Zombie
      ensures !r.Found? ==>
        forall q :: 0 <= q < |old(procs)| ==> old(procs)[q].parent != Some(p) || old(procs)[q].state != Zombie
      ensures r.Found? ==> procs == old(procs)[r.q := Reaped(old(procs)[r.q])]
      ensures r.Found? ==> procs[r.q] == Proc(Unused, 0, None, false)
      ensures r.NoChild? <==> !HasZombie(old(procs), p) && (!HasKids(old(procs), p) || old(procs)[p].killed)
      ensures r.NoChild? ==> procs == old(procs)
      ensures r.MustSleep? ==> procs == old(procs)[p := old(procs)[p].(state := Sleeping(OnProc(p)))]
    {
      var havekids, k := false, 0;
      while k < |procs|
        invariant 0 <= k <= |procs| && procs == old(procs)
        invariant havekids <==> exists q :: 0 <= q < k && procs[q].parent == Some(p)
        invariant forall q :: 0 <= q < k ==> procs[q].parent != Some(p) || procs[q].state != Zombie
      {
        if procs[k].parent == Some(p) {
          havekids := true;
          if procs[k].state == Zombie {
            assert ZombieChild(procs, p, k);
            var pid := procs[k].pid;
            procs := procs[k := Proc(Unused, 0, None, false)];
            return Found(k, pid);
          }
        }
        k := k + 1;
      }
      assert !HasZombie(procs, p);
      if !havekids || procs[p].killed {
        return NoChild;
      }
      procs := procs[p := procs[p].(state := Sleeping(OnProc(p)))];
      return MustSleep;
    }

    /** Marks the first slot that carries the pid, and wakes it whatever it sleeps on. */
    method Kill(pid: nat) returns (ok: bool, ghost q: nat)
      modifies `procs
      ensures ok <==> exists r :: 0 <= r < |old(procs)| && old(procs)[r].pid == pid
      ensures !ok ==> procs == old(procs)
      ensures ok ==> FirstWithPid(old(procs), pid, q) && procs == old(procs)[q := Killed(old(procs)[q])]
      ensures ok ==> old(procs)[q].pid == pid && forall r :: 0 <= r < q ==> old(procs)[r].pid != pid
      ensures ok ==> procs[q].killed && procs[q].pid == pid && procs[q].parent == old(procs)[q].parent
      ensures ok ==> procs[q].state == if old(procs)[q].state.Sleeping? then Runnable else old(procs)[q].state
    {
      var k := 0;
      while k < |procs|
        invariant 0 <= k <= |procs| && procs == old(procs)
        invariant forall r :: 0 <= r < k ==> procs[r].pid != pid
      {
        if procs[k].pid == pid {
          procs := procs[k := procs[k].(killed := true)];
          if procs[k].state.Sleeping? {
            procs := procs[k := procs[k].(state := Runnable)];
          }
          return true, k;
        }
        k := k + 1;
      }
      return false, 0;
    }
  }

  /** The slot is in state s and otherwise as before. */
  predicate Moved(pr: Proc, pr': Proc, s: PState) {
    pr'.state == s && pr'.pid == pr.pid && pr'.parent == pr.parent && pr'.killed == pr.killed
  }

  /** A slot in the middle of exit's loop: passed on to init if already visited, init woken if a zombie was met. */
  function PassedOn(pr: Proc, visited: bool, woke: bool, p: nat, init: nat): Proc {
    var a := if visited then Adopt(pr, p, init) else pr;
    if woke then WakeOne(a, OnProc(init)) else a
  }
}
