/**
 The process table (proc.c): fork, exit, wait, sleep, wakeup, kill and the scheduler as
 steps on the table.  A step is one critical section under ptable.lock, or one of the
 unlocked stores of fork; a process is named by its slot.
 */
module ProcTable {

  import opened Basics

  datatype RunState = Unused | Embryo | Sleeping | Runnable | Running | Zombie

  /** Wait sleeps on the waiter's own slot; every other sleep uses some other channel. */
  datatype Chan = NoChan | Slot(p: nat) | Other(id: nat)

  datatype Proc = Proc(
    state: RunState,
    pid: nat,
    parent: Option<nat>,
    chan: Chan,
    killed: bool,
    np: Option<nat>)     // fork's local np, while this process is inside fork

  datatype Table = Table(procs: seq<Proc>, nextpid: nat, init: nat, reaped: seq<nat>)

  predicate Alive(p: Proc) {
    p.state == Sleeping || p.state == Runnable || p.state == Running
  }

  // ---------- scans of the table ----------

  function FirstUnused(procs: seq<Proc>, from: nat): (i: nat)
    requires from <= |procs|
    ensures from <= i <= |procs| && (i < |procs| ==> procs[i].state == Unused)
    ensures forall j :: from <= j < i ==> procs[j].state != Unused
    decreases |procs| - from
  {
    if from == |procs| || procs[from].state == Unused then from else FirstUnused(procs, from + 1)
  }

  predicate ZombieChild(q: Proc, p: nat) {
    q.parent == Some(p) && q.state == Zombie
  }

  function FirstZombieChild(procs: seq<Proc>, p: nat, from: nat): (i: nat)
    requires from <= |procs|
    ensures from <= i <= |procs| && (i < |procs| ==> ZombieChild(procs[i], p))
    ensures forall j :: from <= j < i ==> !ZombieChild(procs[j], p)
    decreases |procs| - from
  {
    if from == |procs| || ZombieChild(procs[from], p) then from else FirstZombieChild(procs, p, from + 1)
  }

  function FirstPid(procs: seq<Proc>, pid: int, from: nat): (i: nat)
    requires from <= |procs|
    ensures from <= i <= |procs| && (i < |procs| ==> procs[i].pid == pid)
    ensures forall j :: from <= j < i ==> procs[j].pid != pid
    decreases |procs| - from
  {
    if from == |procs| || procs[from].pid == pid then from else FirstPid(procs, pid, from + 1)
  }

  predicate HasChild(procs: seq<Proc>, p: nat) {
    exists i :: 0 <= i < |procs| && procs[i].parent == Some(p)
  }

  function WokenProc(q: Proc, chan: Chan): Proc {
    if q.state == Sleeping && q.chan == chan then q.(state := Runnable) else q
  }

  /** wakeup1: every process that sleeps on `chan` becomes runnable. */
  function Wake(procs: seq<Proc>, chan: Chan): (r: seq<Proc>)
    ensures |r| == |procs| && forall i :: 0 <= i < |procs| ==> r[i] == WokenProc(procs[i], chan)
  {
    seq(|procs|, i requires 0 <= i < |procs| => WokenProc(procs[i], chan))
  }

  /** exit's loop on one process: an abandoned child passes to init, which is woken for a zombie. */
  function Passed(q: Proc, p: nat, init: nat, wakeInit: bool): Proc {
    var q' := if q.parent == Some(p) then q.(parent := Some(init)) else q;
    if wakeInit then WokenProc(q', Slot(init)) else q'
  }

  function PassChildren(procs: seq<Proc>, p: nat, init: nat): (r: seq<Proc>)
    ensures |r| == |procs|
    ensures var wake := FirstZombieChild(procs, p, 0) < |procs|;
            forall i :: 0 <= i < |procs| ==> r[i] == Passed(procs[i], p, init, wake)
  {
    var wake := FirstZombieChild(procs, p, 0) < |procs|;
    seq(|procs|, i requires 0 <= i < |procs| => Passed(procs[i], p, init, wake))
  }

  // ---------- steps ----------

  datatype Step =
    | Alloc(p: nat)              // fork: allocproc
    | ForkFail(p: nat)           // fork: copyuvm failed
    | SetParent(p: nat)          // fork: np->parent = proc
    | ForkDone(p: nat)           // fork: np->state = RUNNABLE
    | Exit(p: nat)
    | Wait(p: nat)               // one pass of wait's loop
    | SleepOn(p: nat, id: nat)   // sleep on a channel other than a process
    | WakeUp(id: nat)
    | KillPid(pid: int)
    | Dispatch(p: nat)           // scheduler
    | Yield(p: nat)
    | Tidy(p: nat)               // sleep: proc->chan = 0

  predicate IsRunning(t: Table, p: nat) {
    p < |t.procs| && t.procs[p].state == Running
  }

  /** Process `p` runs and is not inside fork. */
  predicate Free(t: Table, p: nat) {
    IsRunning(t, p) && t.procs[p].np == None
  }

  predicate Forking(t: Table, p: nat) {
    IsRunning(t, p) && t.procs[p].np.Some? && t.procs[p].np.value < |t.procs|
  }

  predicate Enabled(t: Table, s: Step) {
    match s
    case Alloc(p) => Free(t, p)
    case ForkFail(p) => Forking(t, p) && t.procs[t.procs[p].np.value].parent == None
    case SetParent(p) => Forking(t, p)
    case ForkDone(p) => Forking(t, p) && t.procs[t.procs[p].np.value].parent == Some(p)
    case Exit(p) => Free(t, p) && p != t.init
    case Wait(p) => Free(t, p)
    case SleepOn(p, id) => IsRunning(t, p)
    case WakeUp(id) => true
    case KillPid(pid) => true
    case Dispatch(p) => p < |t.procs| && t.procs[p].state == Runnable
    case Yield(p) => IsRunning(t, p)
    case Tidy(p) => IsRunning(t, p)
  }

  function DoAlloc(t: Table, p: nat): Table
    requires p < |t.procs|
  {
    var i := FirstUnused(t.procs, 0);
    if i == |t.procs| then t
    else
      var procs := t.procs[i := t.procs[i].(state := Embryo, pid := t.nextpid)];
      t.(procs := procs[p := procs[p].(np := Some(i))], nextpid := t.nextpid + 1)
  }

  function DoExit(t: Table, p: nat): Table
    requires p < |t.procs|
  {
    var woken := match t.procs[p].parent case Some(q) => Wake(t.procs, Slot(q)) case None => t.procs;
    var procs := PassChildren(woken, p, t.init);
    t.(procs := procs[p := procs[p].(state := Zombie)])
  }

  function Reaped(q: Proc): Proc {
    q.(pid := 0, parent := None, killed := false, state := Unused)
  }

  function DoWait(t: Table, p: nat): Table
    requires p < |t.procs|
  {
    var i := FirstZombieChild(t.procs, p, 0);
    if i < |t.procs| then
      t.(procs := t.procs[i := Reaped(t.procs[i])], reaped := t.reaped + [t.procs[i].pid])
    else if !HasChild(t.procs, p) || t.procs[p].killed then t
    else t.(procs := t.procs[p := t.procs[p].(chan := Slot(p), state := Sleeping)])
  }

  function DoKill(t: Table, pid: int): Table {
    var i := FirstPid(t.procs, pid, 0);
    if i == |t.procs| then t
    else
      var q := t.procs[i].(killed := true);
      t.(procs := t.procs[i := if q.state == Sleeping then q.(state := Runnable) else q])
  }

  function Do(t: Table, s: Step): (t': Table)
    requires Enabled(t, s)
    ensures |t'.procs| == |t.procs| && t'.init == t.init
  {
    match s
    case Alloc(p) => DoAlloc(t, p)
    case ForkFail(p) =>
      var i := t.procs[p].np.value;
      var procs := t.procs[i := t.procs[i].(state := Unused)];
      t.(procs := procs[p := procs[p].(np := None)])
    case SetParent(p) =>
      var i := t.procs[p].np.value;
      t.(procs := t.procs[i := t.procs[i].(parent := Some(p))])
    case ForkDone(p) =>
      var i := t.procs[p].np.value;
      var procs := t.procs[i := t.procs[i].(state := Runnable)];
      t.(procs := procs[p := procs[p].(np := None)])
    case Exit(p) => DoExit(t, p)
    case Wait(p) => DoWait(t, p)
    case SleepOn(p, id) => t.(procs := t.procs[p := t.procs[p].(chan := Other(id), state := Sleeping)])
    case WakeUp(id) => t.(procs := Wake(t.procs, Other(id)))
    case KillPid(pid) => DoKill(t, pid)
    case Dispatch(p) => t.(procs := t.procs[p := t.procs[p].(state := Running)])
    case Yield(p) => t.(procs := t.procs[p := t.procs[p].(state := Runnable)])
    case Tidy(p) => t.(procs := t.procs[p := t.procs[p].(chan := NoChan)])
  }

  // ---------- the invariant ----------

  /** What holds of the slot `p` on its own. */
  ghost predicate SlotOk(t: Table, p: nat)
    requires p < |t.procs|
  {
    var q := t.procs[p];
    && (q.state == Unused ==> q.parent == None && q.np == None)
    && (q.state == Embryo ==> q.np == None)
    && (q.state == Zombie ==> q.np == None)
    && (q.parent == None ==> q.state == Unused || q.state == Embryo || p == t.init)
    && (q.state == Sleeping ==> q.chan == Slot(p) || q.chan.Other?)
    && (q.state == Sleeping && q.chan == Slot(p) ==> q.np == None && !q.killed)
    && (q.state != Unused ==> q.pid > 0) && q.pid < t.nextpid && q.pid !in t.reaped
  }

  /** What holds between a slot and the slot that its parent pointer names. */
  ghost predicate ParentOk(t: Table, c: nat)
    requires c < |t.procs|
  {
    t.procs[c].parent.Some? ==>
      var q := t.procs[c].parent.value;
      && q < |t.procs| && q != c && Alive(t.procs[q])
      && (t.procs[c].state == Embryo ==> t.procs[q].np == Some(c))
      // nobody sleeps in wait over a zombie child
      && (t.procs[c].state == Zombie ==> !(t.procs[q].state == Sleeping && t.procs[q].chan == Slot(q)))
  }

  ghost predicate ForkOk(t: Table, p: nat)
    requires p < |t.procs|
  {
    t.procs[p].np.Some? ==>
      var i := t.procs[p].np.value;
      && i < |t.procs| && i != p && t.procs[i].state == Embryo
      && (t.procs[i].parent == None || t.procs[i].parent == Some(p))
  }

  ghost predicate PairOk(t: Table, p: nat, q: nat)
    requires p < |t.procs| && q < |t.procs|
  {
    p != q ==>
      && (t.procs[p].pid == t.procs[q].pid ==> t.procs[p].pid == 0)
      && (t.procs[p].np.Some? ==> t.procs[p].np != t.procs[q].np)
  }

  ghost predicate ReapedOk(t: Table) {
    && t.nextpid > 0
    && (forall i :: 0 <= i < |t.reaped| ==> 0 < t.reaped[i] < t.nextpid)
    && (forall i, j :: 0 <= i < j < |t.reaped| ==> t.reaped[i] != t.reaped[j])
  }

  ghost predicate Inv(t: Table) {
    && t.init < |t.procs| && Alive(t.procs[t.init]) && t.procs[t.init].parent == None
    && (forall p :: 0 <= p < |t.procs| ==> SlotOk(t, p) && ParentOk(t, p) && ForkOk(t, p))
    && (forall p, q :: 0 <= p < |t.procs| && 0 <= q < |t.procs| ==> PairOk(t, p, q))
    && ReapedOk(t)
  }

  // ---------- steps that only let processes run, sleep or be killed ----------

  /** Nothing but an alive process's run state and channel, and the killed flag, changes; nobody starts to wait. */
  ghost predicate Gentle(q: Proc, q': Proc, p: nat) {
    && q'.pid == q.pid && q'.parent == q.parent && q'.np == q.np
    && (q'.state == q.state || (Alive(q) && Alive(q')))
    && (q'.state == Sleeping && q'.chan == Slot(p) ==>
          q.state == Sleeping && q.chan == Slot(p) && q'.killed == q.killed)
    && (q'.state == Sleeping ==> q'.chan == Slot(p) || q'.chan.Other?)
  }

  lemma GentleKeeps(t: Table, procs: seq<Proc>)
    requires Inv(t) && |procs| == |t.procs|
    requires forall p :: 0 <= p < |procs| ==> Gentle(t.procs[p], procs[p], p)
    ensures Inv(t.(procs := procs))
  {
    var t' := t.(procs := procs);
    assert Gentle(t.procs[t.init], procs[t.init], t.init);
    forall p | 0 <= p < |procs| ensures SlotOk(t', p) && ParentOk(t', p) && ForkOk(t', p) {
      assert SlotOk(t, p) && ParentOk(t, p) && ForkOk(t, p) && Gentle(t.procs[p], procs[p], p);
      if procs[p].parent.Some? {
        var q := procs[p].parent.value;
        assert Gentle(t.procs[q], procs[q], q);
      }
      if procs[p].np.Some? {
        var i := procs[p].np.value;
        assert Gentle(t.procs[i], procs[i], i);
      }
    }
    forall p, q | 0 <= p < |procs| && 0 <= q < |procs| ensures PairOk(t', p, q) {
      assert PairOk(t, p, q) && Gentle(t.procs[p], procs[p], p) && Gentle(t.procs[q], procs[q], q);
    }
  }

  predicate IsGentle(s: Step) {
    s.SleepOn? || s.WakeUp? || s.KillPid? || s.Dispatch? || s.Yield? || s.Tidy?
  }

  lemma GentleSteps(t: Table, s: Step)
    requires Inv(t) && Enabled(t, s) && IsGentle(s)
    ensures Inv(Do(t, s))
  {
    hide ParentOk, ForkOk, PairOk, ReapedOk;
    var t' := Do(t, s);
    forall p | 0 <= p < |t.procs| ensures Gentle(t.procs[p], t'.procs[p], p) {
      assert SlotOk(t, p);
    }
    GentleKeeps(t, t'.procs);
    assert t' == t.(procs := t'.procs);
  }

  // ---------- fork ----------

  lemma AllocKeeps(t: Table, p: nat)
    requires Inv(t) && Enabled(t, Alloc(p))
    ensures Inv(Do(t, Alloc(p)))
  {
    hide PairOk, FirstUnused;
    var t' := Do(t, Alloc(p));
    var i := FirstUnused(t.procs, 0);
    assert i < |t.procs| ==> SlotOk(t, i);
    assert t.nextpid !in t.reaped;
    forall q | 0 <= q < |t.procs| ensures SlotOk(t', q) && ParentOk(t', q) && ForkOk(t', q) {
      assert SlotOk(t, q) && ParentOk(t, q) && ForkOk(t, q);
    }
    AllocPairs(t, p);
  }

  lemma AllocPairs(t: Table, p: nat)
    requires Inv(t) && Enabled(t, Alloc(p))
    ensures var t' := Do(t, Alloc(p));
            forall q, r :: 0 <= q < |t.procs| && 0 <= r < |t.procs| ==> PairOk(t', q, r)
  {
    hide ParentOk, ReapedOk, FirstUnused;
    var t' := Do(t, Alloc(p));
    forall q, r | 0 <= q < |t.procs| && 0 <= r < |t.procs| ensures PairOk(t', q, r) {
      assert PairOk(t, q, r) && ForkOk(t, q) && ForkOk(t, r) && SlotOk(t, q) && SlotOk(t, r);
    }
  }

  lemma ForkFailKeeps(t: Table, p: nat)
    requires Inv(t) && Enabled(t, ForkFail(p))
    ensures Inv(Do(t, ForkFail(p)))
  {
    var t' := Do(t, ForkFail(p));
    assert ForkOk(t, p);
    forall q | 0 <= q < |t.procs| ensures SlotOk(t', q) && ParentOk(t', q) && ForkOk(t', q) {
      assert SlotOk(t, q) && ParentOk(t, q) && ForkOk(t, q) && PairOk(t, p, q);
    }
    forall q, r | 0 <= q < |t.procs| && 0 <= r < |t.procs| ensures PairOk(t', q, r) {
      assert PairOk(t, q, r);
    }
  }

  lemma SetParentKeeps(t: Table, p: nat)
    requires Inv(t) && Enabled(t, SetParent(p))
    ensures Inv(Do(t, SetParent(p)))
  {
    var t' := Do(t, SetParent(p));
    assert ForkOk(t, p);
    forall q | 0 <= q < |t.procs| ensures SlotOk(t', q) && ParentOk(t', q) && ForkOk(t', q) {
      assert SlotOk(t, q) && ParentOk(t, q) && ForkOk(t, q) && PairOk(t, p, q);
    }
    forall q, r | 0 <= q < |t.procs| && 0 <= r < |t.procs| ensures PairOk(t', q, r) {
      assert PairOk(t, q, r);
    }
  }

  lemma ForkDoneKeeps(t: Table, p: nat)
    requires Inv(t) && Enabled(t, ForkDone(p))
    ensures Inv(Do(t, ForkDone(p)))
  {
    var t' := Do(t, ForkDone(p));
    assert ForkOk(t, p);
    forall q | 0 <= q < |t.procs| ensures SlotOk(t', q) && ParentOk(t', q) && ForkOk(t', q) {
      assert SlotOk(t, q) && ParentOk(t, q) && ForkOk(t, q) && PairOk(t, p, q);
    }
    forall q, r | 0 <= q < |t.procs| && 0 <= r < |t.procs| ensures PairOk(t', q, r) {
      assert PairOk(t, q, r);
    }
  }

  // ---------- wait ----------

  lemma ReapKeeps(t: Table, i: nat)
    requires Inv(t) && i < |t.procs| && t.procs[i].state == Zombie
    ensures Inv(t.(procs := t.procs[i := Reaped(t.procs[i])], reaped := t.reaped + [t.procs[i].pid]))
  {
    var t' := t.(procs := t.procs[i := Reaped(t.procs[i])], reaped := t.reaped + [t.procs[i].pid]);
    assert SlotOk(t, i);
    forall q | 0 <= q < |t.procs| ensures SlotOk(t', q) && ParentOk(t', q) && ForkOk(t', q) {
      assert SlotOk(t, q) && ParentOk(t, q) && ForkOk(t, q) && PairOk(t, i, q);
    }
    forall q, r | 0 <= q < |t.procs| && 0 <= r < |t.procs| ensures PairOk(t', q, r) {
      assert PairOk(t, q, r);
    }
  }

  /** A process may sleep in wait when it is not killed and none of its children is a zombie. */
  lemma WaitSleepKeeps(t: Table, p: nat)
    requires Inv(t) && Free(t, p) && !t.procs[p].killed
    requires forall i :: 0 <= i < |t.procs| ==> !ZombieChild(t.procs[i], p)
    ensures Inv(t.(procs := t.procs[p := t.procs[p].(chan := Slot(p), state := Sleeping)]))
  {
    var t' := t.(procs := t.procs[p := t.procs[p].(chan := Slot(p), state := Sleeping)]);
    forall q | 0 <= q < |t.procs| ensures SlotOk(t', q) && ParentOk(t', q) && ForkOk(t', q) {
      assert SlotOk(t, q) && ParentOk(t, q) && ForkOk(t, q) && !ZombieChild(t.procs[q], p);
    }
    forall q, r | 0 <= q < |t.procs| && 0 <= r < |t.procs| ensures PairOk(t', q, r) {
      assert PairOk(t, q, r);
    }
  }

  lemma WaitKeeps(t: Table, p: nat)
    requires Inv(t) && Enabled(t, Wait(p))
    ensures Inv(Do(t, Wait(p)))
  {
    hide Inv;
    var i := FirstZombieChild(t.procs, p, 0);
    if i < |t.procs| {
      ReapKeeps(t, i);
    } else if HasChild(t.procs, p) && !t.procs[p].killed {
      WaitSleepKeeps(t, p);
    }
  }

  // ---------- exit ----------

  /** exit's first wakeup lets nobody who may be the parent sleep in wait. */
  lemma WakeKeeps(t: Table, chan: Chan)
    requires Inv(t)
    ensures Inv(t.(procs := Wake(t.procs, chan)))
  {
    hide ParentOk, ForkOk, PairOk, ReapedOk;
    var procs := Wake(t.procs, chan);
    forall p | 0 <= p < |procs| ensures Gentle(t.procs[p], procs[p], p) {
      assert SlotOk(t, p);
    }
    GentleKeeps(t, procs);
  }

  /** Passing children on to init, which does not sleep if one of them is a zombie. */
  lemma AdoptKeeps(t: Table, procs: seq<Proc>, p: nat)
    requires Inv(t) && p != t.init && |procs| == |t.procs|
    requires (forall c :: 0 <= c < |procs| ==> !(t.procs[c].state == Embryo && t.procs[c].parent == Some(p)))
    requires (exists c :: 0 <= c < |procs| && ZombieChild(t.procs[c], p)) ==>
               !(t.procs[t.init].state == Sleeping && t.procs[t.init].chan == Slot(t.init))
    requires forall c :: 0 <= c < |procs| ==> procs[c] == Passed(t.procs[c], p, t.init, false)
    ensures Inv(t.(procs := procs))
  {
    var t' := t.(procs := procs);
    forall q | 0 <= q < |t.procs| ensures SlotOk(t', q) && ParentOk(t', q) && ForkOk(t', q) {
      assert SlotOk(t, q) && ParentOk(t, q) && ForkOk(t, q);
      assert ZombieChild(t.procs[q], p) || !ZombieChild(t.procs[q], p);
    }
    forall q, r | 0 <= q < |t.procs| && 0 <= r < |t.procs| ensures PairOk(t', q, r) {
      assert PairOk(t, q, r);
    }
  }

  /** A process without children whose parent does not sleep in wait may become a zombie. */
  lemma ZombieKeeps(t: Table, p: nat)
    requires Inv(t) && Free(t, p) && p != t.init
    requires forall c :: 0 <= c < |t.procs| ==> t.procs[c].parent != Some(p)
    requires forall q :: t.procs[p].parent == Some(q) && q < |t.procs| ==>
               !(t.procs[q].state == Sleeping && t.procs[q].chan == Slot(q))
    ensures Inv(t.(procs := t.procs[p := t.procs[p].(state := Zombie)]))
  {
    var t' := t.(procs := t.procs[p := t.procs[p].(state := Zombie)]);
    forall q | 0 <= q < |t.procs| ensures SlotOk(t', q) && ParentOk(t', q) && ForkOk(t', q) {
      assert SlotOk(t, q) && ParentOk(t, q) && ForkOk(t, q);
    }
    forall q, r | 0 <= q < |t.procs| && 0 <= r < |t.procs| ensures PairOk(t', q, r) {
      assert PairOk(t, q, r);
    }
  }

  /** exit's loop is: wake init if some child is a zombie, then pass every child on. */
  lemma PassTwoSteps(procs: seq<Proc>, p: nat, init: nat)
    ensures var wake := FirstZombieChild(procs, p, 0) < |procs|;
            var woken := if wake then Wake(procs, Slot(init)) else procs;
            && (wake <==> exists c :: 0 <= c < |procs| && ZombieChild(procs[c], p))
            && (forall c :: 0 <= c < |procs| ==> PassChildren(procs, p, init)[c] == Passed(woken[c], p, init, false))
  {
  }

  lemma ExitKeeps(t: Table, p: nat)
    requires Inv(t) && Enabled(t, Exit(p))
    ensures Inv(Do(t, Exit(p)))
  {
    hide Inv, PassChildren, FirstZombieChild;
    var q := ExitParent(t, p);
    WakeKeeps(t, Slot(q));
    var t1 := t.(procs := Wake(t.procs, Slot(q)));
    PassTwoSteps(t1.procs, p, t.init);
    var wake := FirstZombieChild(t1.procs, p, 0) < |t1.procs|;
    WakeKeeps(t1, Slot(t.init));
    var t2 := if wake then t1.(procs := Wake(t1.procs, Slot(t.init))) else t1;
    var t3 := t2.(procs := PassChildren(t1.procs, p, t.init));
    ExitAdopts(t2, t3.procs, p);
    assert t3.procs[p] == Passed(t2.procs[p], p, t.init, false) && t3.procs[q] == Passed(t2.procs[q], p, t.init, false);
    ZombieKeeps(t3, p);
    assert Do(t, Exit(p)) == t3.(procs := t3.procs[p := t3.procs[p].(state := Zombie)]);
  }

  lemma ExitParent(t: Table, p: nat) returns (q: nat)
    requires Inv(t) && Free(t, p) && p != t.init
    ensures t.procs[p].parent == Some(q) && q < |t.procs| && q != p && t.init < |t.procs|
  {
    assert SlotOk(t, p) && ParentOk(t, p);
    q := t.procs[p].parent.value;
  }

  lemma ExitAdopts(t: Table, procs: seq<Proc>, p: nat)
    requires Inv(t) && Free(t, p) && p != t.init && |procs| == |t.procs|
    requires (exists c :: 0 <= c < |procs| && ZombieChild(t.procs[c], p)) ==>
               !(t.procs[t.init].state == Sleeping && t.procs[t.init].chan == Slot(t.init))
    requires forall c :: 0 <= c < |procs| ==> procs[c] == Passed(t.procs[c], p, t.init, false)
    ensures Inv(t.(procs := procs))
  {
    forall c | 0 <= c < |procs| ensures !(t.procs[c].state == Embryo && t.procs[c].parent == Some(p)) {
      assert ParentOk(t, c);
    }
    AdoptKeeps(t, procs, p);
  }

  // ---------- whole runs ----------

  lemma StepKeeps(t: Table, s: Step)
    requires Inv(t) && Enabled(t, s)
    ensures Inv(Do(t, s))
  {
    hide Inv, Enabled, Do;
    match s {
      case Alloc(p) => AllocKeeps(t, p);
      case ForkFail(p) => ForkFailKeeps(t, p);
      case SetParent(p) => SetParentKeeps(t, p);
      case ForkDone(p) => ForkDoneKeeps(t, p);
      case Exit(p) => ExitKeeps(t, p);
      case Wait(p) => WaitKeeps(t, p);
      case _ => GentleSteps(t, s);
    }
  }

  /** userinit: the first process, in slot 0, of a table of `n` slots. */
  function Boot(n: nat): Table
    requires n > 0
  {
    Table(seq(n, i => if i == 0 then Proc(Runnable, 1, None, NoChan, false, None)
                      else Proc(Unused, 0, None, NoChan, false, None)), 2, 0, [])
  }

  ghost function After(n: nat, steps: seq<Step>): (r: Option<Table>)
    requires n > 0
    ensures r.Some? ==> Inv(r.value)
  {
    if steps == [] then Some(Boot(n))
    else
      var k := |steps| - 1;
      match After(n, steps[..k])
      case None => None
      case Some(t) =>
        if Enabled(t, steps[k]) then
          StepKeeps(t, steps[k]);
          Some(Do(t, steps[k]))
        else None
  }

  /**
   No process sleeps in wait while it is killed or has a zombie child, no zombie has children, and all but
   init have a parent.
   */
  ghost predicate FamilyOk(t: Table, c: nat)
    requires c < |t.procs|
  {
    && (t.procs[c].killed ==> !(t.procs[c].state == Sleeping && t.procs[c].chan == Slot(c)))
    && (c != t.init && (Alive(t.procs[c]) || t.procs[c].state == Zombie) ==> t.procs[c].parent.Some?)
    && (t.procs[c].parent.Some? ==>
          var p := t.procs[c].parent.value;
          && p < |t.procs| && t.procs[p].state != Zombie && Alive(t.procs[p])
          && (t.procs[c].state == Zombie ==> !(t.procs[p].state == Sleeping && t.procs[p].chan == Slot(p))))
  }

  lemma Family(t: Table, c: nat)
    requires Inv(t) && c < |t.procs|
    ensures FamilyOk(t, c)
  {
    assert SlotOk(t, c) && ParentOk(t, c);
  }

  lemma PidsOnce(t: Table)
    requires Inv(t)
    ensures forall i, j | 0 <= i < j < |t.reaped| :: t.reaped[i] != t.reaped[j]
    ensures forall p | 0 <= p < |t.procs| && t.procs[p].state != Unused :: t.procs[p].pid !in t.reaped
  {
    hide ParentOk, ForkOk, PairOk;
    forall p | 0 <= p < |t.procs| && t.procs[p].state != Unused ensures t.procs[p].pid !in t.reaped {
      assert SlotOk(t, p);
    }
  }

  // ---------- what becomes of a kill ----------

  /** The step is a kill that finds its pid in slot `i`. */
  predicate Kills(t: Table, s: Step, i: nat) {
    s.KillPid? && i < |t.procs| && t.procs[i].pid == s.pid && forall j :: 0 <= j < i ==> t.procs[j].pid != s.pid
  }

  /** The step is a wait that reaps slot `i`. */
  predicate Reaps(t: Table, s: Step, i: nat) {
    s.Wait? && i < |t.procs| && ZombieChild(t.procs[i], s.p) && forall j :: 0 <= j < i ==> !ZombieChild(t.procs[j], s.p)
  }

  /** What exit does to a slot's killed flag, and to a slot that has no process. */
  lemma ExitSlot(t: Table, p: nat, i: nat)
    requires p < |t.procs| && i < |t.procs|
    ensures |DoExit(t, p).procs| == |t.procs| && DoExit(t, p).procs[i].killed == t.procs[i].killed
    ensures Unformed(DoExit(t, p).procs[i]) ==> Unformed(t.procs[i])
  {
    hide FirstZombieChild;
  }

  lemma KilledStep(t: Table, s: Step, i: nat)
    requires Enabled(t, s) && i < |t.procs|
    ensures Do(t, s).procs[i].killed <==> Kills(t, s, i) || (t.procs[i].killed && !Reaps(t, s, i))
  {
    hide HasChild, DoExit, FirstUnused;
    if s.Exit? {
      ExitSlot(t, s.p, i);
    }
  }

  /** Step k of the run kills slot `i`. */
  ghost predicate KillsAt(n: nat, steps: seq<Step>, k: nat, i: nat)
    requires n > 0 && k < |steps|
  {
    var r := After(n, steps[..k]);
    r.Some? && Kills(r.value, steps[k], i)
  }

  ghost predicate ReapsAt(n: nat, steps: seq<Step>, k: nat, i: nat)
    requires n > 0 && k < |steps|
  {
    var r := After(n, steps[..k]);
    r.Some? && Reaps(r.value, steps[k], i)
  }

  /** Slot `i` has been killed in the run, and not been reaped since. */
  ghost predicate Struck(n: nat, steps: seq<Step>, i: nat)
    requires n > 0
  {
    exists k :: 0 <= k < |steps| && KillsAt(n, steps, k, i) && forall m :: k < m < |steps| ==> !ReapsAt(n, steps, m, i)
  }

  lemma EarlierAt(n: nat, steps: seq<Step>, last: nat, i: nat)
    requires n > 0 && last < |steps|
    ensures forall k :: 0 <= k < last ==>
              KillsAt(n, steps[..last], k, i) == KillsAt(n, steps, k, i)
              && ReapsAt(n, steps[..last], k, i) == ReapsAt(n, steps, k, i)
  {
    hide After, Kills, Reaps;
    forall k | 0 <= k < last
      ensures KillsAt(n, steps[..last], k, i) == KillsAt(n, steps, k, i)
              && ReapsAt(n, steps[..last], k, i) == ReapsAt(n, steps, k, i)
    {
      assert steps[..last][..k] == steps[..k];
    }
  }

  lemma StruckNext(n: nat, steps: seq<Step>, last: nat, i: nat)
    requires n > 0 && |steps| == last + 1
    ensures Struck(n, steps, i) <==>
              KillsAt(n, steps, last, i) || (Struck(n, steps[..last], i) && !ReapsAt(n, steps, last, i))
  {
    hide KillsAt, ReapsAt;
    EarlierAt(n, steps, last, i);
    var before := steps[..last];
    if KillsAt(n, steps, last, i) {
      assert Struck(n, steps, i);
    } else if Struck(n, steps, i) {
      var k :| 0 <= k < |steps| && KillsAt(n, steps, k, i) && forall m :: k < m < |steps| ==> !ReapsAt(n, steps, m, i);
      assert KillsAt(n, before, k, i);
      assert forall m :: k < m < last ==> !ReapsAt(n, before, m, i);
    } else if Struck(n, before, i) && !ReapsAt(n, steps, last, i) {
      var k :| 0 <= k < last && KillsAt(n, before, k, i) && forall m :: k < m < last ==> !ReapsAt(n, before, m, i);
      assert KillsAt(n, steps, k, i);
      assert forall m :: k < m < |steps| ==> !ReapsAt(n, steps, m, i);
      assert false;
    }
  }

  /** In every run a slot is marked killed exactly if a kill has found it and no wait has reaped it since. */
  lemma {:induction false} KilledExact(n: nat, steps: seq<Step>, i: nat)
    requires n > 0 && After(n, steps).Some? && i < |After(n, steps).value.procs|
    ensures After(n, steps).value.procs[i].killed <==> Struck(n, steps, i)
  {
    hide Inv, Enabled, Do, Kills, Reaps, Struck;
    if steps == [] {
      NeverStruck(n, i);
    } else {
      var last := |steps| - 1;
      var t := After(n, steps[..last]).value;
      KilledExact(n, steps[..last], i);
      StruckNext(n, steps, last, i);
      KilledStep(t, steps[last], i);
    }
  }

  lemma NeverStruck(n: nat, i: nat)
    requires n > 0
    ensures !Struck(n, [], i)
  {
  }

  /** A slot with no process yet. */
  predicate Unformed(q: Proc) {
    q.state == Unused || q.state == Embryo
  }

  ghost predicate Clean(t: Table) {
    forall i :: 0 <= i < |t.procs| && Unformed(t.procs[i]) ==> !t.procs[i].killed
  }

  /** The step is a kill that finds its pid in a slot with no process. */
  ghost predicate Stray(t: Table, s: Step) {
    exists i: nat :: Kills(t, s, i) && Unformed(t.procs[i])
  }

  lemma CleanStep(t: Table, s: Step)
    requires Inv(t) && Enabled(t, s) && Clean(t)
    ensures Clean(Do(t, s)) <==> !Stray(t, s)
  {
    hide Inv, Enabled, Do;
    var t' := Do(t, s);
    if Stray(t, s) {
      var i: nat :| Kills(t, s, i) && Unformed(t.procs[i]);
      KilledStep(t, s, i);
      StrayStays(t, s, i);
    } else {
      forall i | 0 <= i < |t.procs| && Unformed(t'.procs[i]) ensures !t'.procs[i].killed {
        KilledStep(t, s, i);
        Newborn(t, s, i);
      }
    }
  }

  /** A slot without a process had none before, or has just been reaped. */
  lemma Newborn(t: Table, s: Step, i: nat)
    requires Inv(t) && Enabled(t, s) && i < |t.procs| && Unformed(Do(t, s).procs[i])
    ensures Unformed(t.procs[i]) || Reaps(t, s, i)
  {
    hide HasChild, SlotOk, ParentOk, PairOk, ReapedOk, FirstUnused, FirstPid, DoExit;
    assert s.ForkFail? ==> ForkOk(t, s.p);
    if s.Exit? {
      ExitSlot(t, s.p, i);
    }
  }

  lemma StrayStays(t: Table, s: Step, i: nat)
    requires Kills(t, s, i) && Unformed(t.procs[i])
    ensures |Do(t, s).procs| == |t.procs| && i < |t.procs| && Unformed(Do(t, s).procs[i])
  {
  }

  /** The table after the first k steps. */
  ghost function At(n: nat, steps: seq<Step>, k: nat): (t: Table)
    requires n > 0 && k <= |steps| && After(n, steps).Some?
    decreases |steps|
  {
    if k == |steps| then After(n, steps).value else At(n, steps[..|steps| - 1], k)
  }

  ghost predicate AlwaysClean(n: nat, steps: seq<Step>)
    requires n > 0 && After(n, steps).Some?
  {
    forall k :: 0 <= k <= |steps| ==> Clean(At(n, steps, k))
  }

  ghost predicate NeverStray(n: nat, steps: seq<Step>)
    requires n > 0 && After(n, steps).Some?
  {
    forall k :: 0 <= k < |steps| ==> !Stray(At(n, steps, k), steps[k])
  }

  lemma CleanNext(n: nat, steps: seq<Step>, last: nat)
    requires n > 0 && After(n, steps).Some? && |steps| == last + 1
    ensures AlwaysClean(n, steps) <==> AlwaysClean(n, steps[..last]) && Clean(After(n, steps).value)
    ensures NeverStray(n, steps) <==> NeverStray(n, steps[..last]) && !Stray(After(n, steps[..last]).value, steps[last])
  {
    hide Inv, Enabled, Do, Clean, Stray;
    var before := steps[..last];
    forall k: nat | k <= last ensures At(n, steps, k) == At(n, before, k) && (k < last ==> before[k] == steps[k]) {
    }
    if AlwaysClean(n, steps) {
      assert Clean(At(n, steps, |steps|));
    }
    if NeverStray(n, steps) {
      assert !Stray(At(n, steps, last), steps[last]);
    }
  }

  /**
   No slot is ever handed out already killed, exactly if no kill of the run finds its pid in a slot that
   has no process.
   */
  lemma {:induction false} NewbornsClean(n: nat, steps: seq<Step>)
    requires n > 0 && After(n, steps).Some?
    ensures AlwaysClean(n, steps) <==> NeverStray(n, steps)
  {
    hide Inv, Enabled, Do, Clean, Stray;
    if steps == [] {
      BootClean(n);
    } else {
      var last := |steps| - 1;
      var t := After(n, steps[..last]).value;
      NewbornsClean(n, steps[..last]);
      CleanNext(n, steps, last);
      assert AlwaysClean(n, steps[..last]) ==> Clean(At(n, steps[..last], last));
      if Clean(t) {
        CleanStep(t, steps[last]);
      }
    }
  }

  lemma BootClean(n: nat)
    requires n > 0
    ensures Clean(Boot(n))
  {
  }

  /** Such a kill is one of pid 0, which all the slots have that were never used; the next fork takes a killed slot. */
  lemma BornKilled(n: nat) returns (steps: seq<Step>)
    requires n > 1
    ensures steps == [Dispatch(0), KillPid(0), Alloc(0)] && After(n, steps).Some?
    ensures var procs := After(n, steps).value.procs; |procs| > 1 && procs[1].state == Embryo && procs[1].killed
  {
    hide Inv, After, Boot, Enabled, Do;
    BootStarts(n);
    RunStep(n, [], Dispatch(0));
    var t := After(n, [] + [Dispatch(0)]).value;
    BornSteps(Boot(n), t);
    RunStep(n, [] + [Dispatch(0)], KillPid(0));
    RunStep(n, [] + [Dispatch(0)] + [KillPid(0)], Alloc(0));
    steps := [] + [Dispatch(0)] + [KillPid(0)] + [Alloc(0)];
  }

  lemma RunStep(n: nat, steps: seq<Step>, s: Step)
    requires n > 0 && After(n, steps).Some? && Enabled(After(n, steps).value, s)
    ensures After(n, steps + [s]) == Some(Do(After(n, steps).value, s))
  {
    hide Inv, Enabled, Do;
    assert (steps + [s])[..|steps|] == steps;
  }

  lemma BootStarts(n: nat)
    requires n > 0
    ensures After(n, []) == Some(Boot(n)) && Enabled(Boot(n), Dispatch(0))
  {
  }

  lemma BornSteps(t: Table, t1: Table)
    requires exists n :: n > 1 && t == Boot(n)
    requires Enabled(t, Dispatch(0)) && t1 == Do(t, Dispatch(0))
    ensures Enabled(t1, KillPid(0)) && Enabled(Do(t1, KillPid(0)), Alloc(0))
    ensures var t3 := Do(Do(t1, KillPid(0)), Alloc(0));
            |t3.procs| > 1 && t3.procs[1].state == Embryo && t3.procs[1].killed
  {
    assert FirstPid(t1.procs, 0, 0) == 1;
    assert FirstUnused(Do(t1, KillPid(0)).procs, 0) == 1;
  }

  /** A pid that wait has returned is nobody's any more: a kill of it finds nothing. */
  lemma KillReaped(n: nat, steps: seq<Step>, pid: nat)
    requires n > 0 && After(n, steps).Some? && pid in After(n, steps).value.reaped
    ensures forall i :: !Kills(After(n, steps).value, KillPid(pid), i)
    ensures Do(After(n, steps).value, KillPid(pid)) == After(n, steps).value
  {
    hide After, ParentOk, ForkOk, PairOk;
    var t := After(n, steps).value;
    forall i | 0 <= i < |t.procs| ensures t.procs[i].pid != pid {
      assert SlotOk(t, i);
    }
  }

  /**
   In every run, between any two steps: no process sleeps in wait while it is killed or has
   a zombie child, no zombie has children, every process but init has a parent that is alive, and
   no pid has been returned by wait twice or still belongs to a process.
   */
  lemma ExitAndWait(n: nat, steps: seq<Step>)
    requires n > 0 && After(n, steps).Some?
    ensures var t := After(n, steps).value;
            && (forall c :: 0 <= c < |t.procs| ==> FamilyOk(t, c))
            && (forall i, j | 0 <= i < j < |t.reaped| :: t.reaped[i] != t.reaped[j])
            && (forall p | 0 <= p < |t.procs| && t.procs[p].state != Unused :: t.procs[p].pid !in t.reaped)
  {
    hide Inv, FamilyOk, Do, Enabled;
    var t := After(n, steps).value;
    PidsOnce(t);
    forall c | 0 <= c < |t.procs| ensures FamilyOk(t, c) {
      Family(t, c);
    }
  }
}
