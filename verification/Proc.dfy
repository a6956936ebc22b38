/**
 The table scans of proc.c as they run, each shown to take the step that ProcTable
 describes.
 */
module Proc {
  import opened Basics
  import opened ProcTable

  const NPROC: nat := 64

  datatype WaitOutcome = Child(pid: nat) | NoChildren | Asleep

  // ---------- what the scans do to the table, slot by slot ----------

  /** From `a` to `b` only slot `i` has changed. */
  ghost predicate OnlyAt(a: seq<Proc>, b: seq<Proc>, i: nat) {
    |b| == |a| && i < |a| && forall k :: 0 <= k < |a| && k != i ==> b[k] == a[k]
  }

  /** Slot `i` has been killed: it is marked, and no longer asleep. */
  ghost predicate Marked(a: seq<Proc>, b: seq<Proc>, pid: int, i: nat) {
    && OnlyAt(a, b, i) && a[i].pid == pid && (forall k :: 0 <= k < i ==> a[k].pid != pid)
    && b[i].killed && b[i].state == (if a[i].state == Sleeping then Runnable else a[i].state)
    && b[i].pid == pid && b[i].parent == a[i].parent && b[i].chan == a[i].chan && b[i].np == a[i].np
  }

  /** Slot `i`, a zombie child of `p`, has been cleared for the next process. */
  ghost predicate Collected(a: seq<Proc>, b: seq<Proc>, p: nat, i: nat) {
    && OnlyAt(a, b, i) && a[i].state == Zombie && a[i].parent == Some(p)
    && (forall k :: 0 <= k < i ==> a[k].state != Zombie || a[k].parent != Some(p))
    && b[i].state == Unused && b[i].pid == 0 && b[i].parent == None && !b[i].killed
  }

  /** What becomes of slot `k` when `p`, whose parent is `q`, exits. */
  ghost predicate Left(a: seq<Proc>, b: seq<Proc>, p: nat, q: nat, init: nat, k: nat)
    requires k < |a| == |b|
  {
    && b[k].parent == (if a[k].parent == Some(p) then Some(init) else a[k].parent)
    && b[k].pid == a[k].pid && b[k].chan == a[k].chan && b[k].killed == a[k].killed && b[k].np == a[k].np
    && var woken := a[k].chan == Slot(q) || (a[k].chan == Slot(init) && HasZombie(a, p));
       b[k].state == if k == p then Zombie else if a[k].state == Sleeping && woken then Runnable else a[k].state
  }

  ghost predicate HasZombie(a: seq<Proc>, p: nat) {
    exists k :: 0 <= k < |a| && a[k].parent == Some(p) && a[k].state == Zombie
  }

  lemma ExitLeaves(t: Table, p: nat, q: nat)
    requires p < |t.procs| && t.procs[p].parent == Some(q)
    ensures |DoExit(t, p).procs| == |t.procs|
    ensures forall k :: 0 <= k < |t.procs| ==> Left(t.procs, DoExit(t, p).procs, p, q, t.init, k)
  {
    var woken := Wake(t.procs, Slot(q));
    assert HasZombie(t.procs, p) <==> FirstZombieChild(woken, p, 0) < |woken| by {
      ZombieScan(woken, p);
      forall k | 0 <= k < |woken| ensures ZombieChild(woken[k], p) <==> ZombieChild(t.procs[k], p) {
      }
    }
  }

  lemma ZombieScan(procs: seq<Proc>, p: nat)
    ensures FirstZombieChild(procs, p, 0) < |procs| <==> exists k :: 0 <= k < |procs| && ZombieChild(procs[k], p)
  {
  }

  class Ptable {
    const procs: array<Proc>
    const init: nat
    var nextpid: nat
    ghost var reaped: seq<nat>    // every pid that wait returned, in order

    ghost function Now(): Table
      reads this, procs
    {
      Table(procs[..], nextpid, init, reaped)
    }

    constructor ()
      ensures procs.Length == NPROC && fresh(procs) && Now() == Boot(NPROC) && init == 0 && nextpid == 2
      ensures procs[0].state == Runnable && procs[0].pid == 1
      ensures forall k :: 0 < k < NPROC ==> procs[k].state == Unused && procs[k].pid == 0 && !procs[k].killed
    {
      procs := new Proc[NPROC](i => if i == 0 then Proc(Runnable, 1, None, NoChan, false, None)
                                    else Proc(Unused, 0, None, NoChan, false, None));
      init, nextpid, reaped := 0, 2, [];
    }

    /** allocproc, called by process `p`: the first unused slot, or none. */
    method Allocproc(p: nat) returns (i: nat)
      requires p < procs.Length
      modifies this`nextpid, procs
      ensures Now() == DoAlloc(old(Now()), p)
      ensures i <= procs.Length && forall k :: 0 <= k < i ==> old(procs[..])[k].state != Unused
      ensures i == procs.Length ==> procs[..] == old(procs[..]) && nextpid == old(nextpid)
      ensures i < procs.Length ==>
                && old(procs[..])[i].state == Unused && nextpid == old(nextpid) + 1
                && procs[i].state == Embryo && procs[i].pid == old(nextpid) && procs[p].np == Some(i)
                && procs[i].parent == old(procs[i].parent) && procs[i].killed == old(procs[i].killed)
                && forall k :: 0 <= k < procs.Length && k != i && k != p ==> procs[k] == old(procs[k])
    {
      i := 0;
      while i < procs.Length && procs[i].state != Unused
        invariant i <= procs.Length && FirstUnused(procs[..], 0) == FirstUnused(procs[..], i)
      {
        i := i + 1;
      }
      if i < procs.Length {
        procs[i] := procs[i].(state := Embryo, pid := nextpid);
        nextpid := nextpid + 1;
        procs[p] := procs[p].(np := Some(i));
      }
    }

    method Wakeup1(chan: Chan)
      modifies procs
      ensures procs[..] == Wake(old(procs[..]), chan)
    {
      for i := 0 to procs.Length
        invariant forall k :: 0 <= k < procs.Length ==>
                    procs[k] == if k < i then WokenProc(old(procs[..])[k], chan) else old(procs[..])[k]
      {
        if procs[i].state == Sleeping && procs[i].chan == chan {
          procs[i] := procs[i].(state := Runnable);
        }
      }
    }

    /** exit's loop: pass every child on to init, waking init at each one that is a zombie. */
    method PassOn(p: nat)
      requires p < procs.Length
      modifies procs
      ensures procs[..] == PassChildren(old(procs[..]), p, init)
    {
      ghost var w := procs[..];
      ghost var z := FirstZombieChild(w, p, 0);
      for i := 0 to procs.Length
        invariant forall k :: 0 <= k < procs.Length ==>
                    procs[k] == if k < i then Passed(w[k], p, init, z < i)
                                else if z < i then WokenProc(w[k], Slot(init)) else w[k]
      {
        assert ZombieChild(procs[i], p) <==> ZombieChild(w[i], p);
        if procs[i].parent == Some(p) {
          procs[i] := procs[i].(parent := Some(init));
          if procs[i].state == Zombie {
            assert z <= i;
            Wakeup1(Slot(init));
          }
        }
      }
    }

    /** exit, from acquiring ptable.lock: the process becomes a zombie for good. */
    method Exit(p: nat)
      requires p < procs.Length && p != init && procs[p].parent.Some?
      modifies procs
      ensures Now() == DoExit(old(Now()), p)
      ensures forall k :: 0 <= k < procs.Length ==>
                Left(old(procs[..]), procs[..], p, old(procs[p].parent).value, init, k)
    {
      ghost var t := Now();
      var q := procs[p].parent.value;
      Wakeup1(Slot(q));
      PassOn(p);
      procs[p] := procs[p].(state := Zombie);
      ExitLeaves(t, p, q);
    }

    /** One pass of wait's loop: reap the first zombie child, give up, or go to sleep. */
    method Wait(p: nat) returns (r: WaitOutcome)
      requires p < procs.Length
      modifies this`reaped, procs
      ensures Now() == DoWait(old(Now()), p)
      ensures r.Child? <==> HasZombie(old(procs[..]), p)
      ensures r.Child? ==>
                && reaped == old(reaped) + [r.pid]
                && exists i: nat :: Collected(old(procs[..]), procs[..], p, i) && old(procs[..])[i].pid == r.pid
      ensures !r.Child? ==> reaped == old(reaped)
      ensures r.NoChildren? <==>
                !HasZombie(old(procs[..]), p) && (!HasChild(old(procs[..]), p) || old(procs[p].killed))
      ensures r.NoChildren? ==> procs[..] == old(procs[..])
      ensures r.Asleep? ==>
                OnlyAt(old(procs[..]), procs[..], p) && procs[p] == old(procs[p]).(state := Sleeping, chan := Slot(p))
    {
      var havekids := false;
      for i := 0 to procs.Length
        invariant procs[..] == old(procs[..]) && reaped == old(reaped)
        invariant FirstZombieChild(procs[..], p, 0) == FirstZombieChild(procs[..], p, i)
        invariant havekids <==> exists k :: 0 <= k < i && procs[..][k].parent == Some(p)
      {
        if procs[i].parent == Some(p) {
          havekids := true;
          if procs[i].state == Zombie {
            r := Child(procs[i].pid);
            reaped := reaped + [procs[i].pid];
            procs[i] := Reaped(procs[i]);
            assert Collected(old(procs[..]), procs[..], p, i);
            return;
          }
        }
      }
      if !havekids || procs[p].killed {
        return NoChildren;
      }
      procs[p] := procs[p].(chan := Slot(p), state := Sleeping);
      r := Asleep;
    }

    /** The first slot with the pid is killed, whatever is in it. */
    method Kill(pid: int) returns (found: bool)
      modifies procs
      ensures Now() == DoKill(old(Now()), pid)
      ensures found <==> exists k :: 0 <= k < procs.Length && old(procs[..])[k].pid == pid
      ensures found ==> exists i: nat :: Marked(old(procs[..]), procs[..], pid, i)
      ensures !found ==> procs[..] == old(procs[..])
    {
      for i := 0 to procs.Length
        invariant procs[..] == old(procs[..])
        invariant FirstPid(procs[..], pid, 0) == FirstPid(procs[..], pid, i)
        invariant forall k :: 0 <= k < i ==> procs[..][k].pid != pid
      {
        if procs[i].pid == pid {
          procs[i] := procs[i].(killed := true);
          if procs[i].state == Sleeping {
            procs[i] := procs[i].(state := Runnable);
          }
          assert Marked(old(procs[..]), procs[..], pid, i);
          return true;
        }
      }
      return false;
    }
  }
}
