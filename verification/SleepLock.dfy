/**
 One sleep lock and the processes that compete for it (sleeplock.c over sleep and wakeup
 in proc.c), one atomic step at a time.  The two spin locks involved, the sleep lock's own
 and the process table's, are atomic locks with a holder.
 */
module SleepLock {

  import opened Basics

  /** Where a process is in acquiresleep, sleep, its critical region or releasesleep. */
  datatype Pc =
    | Idle
    | WantInner      // acquire(&lk->lk)
    | Test           // while (lk->locked)
    | Take           // lk->locked = 1
    | Leave          // release(&lk->lk)
    | SleepWantTable // sleep: acquire(&ptable.lock)
    | SleepDropInner // release(lk)
    | SleepMark      // chan = lk, state = SLEEPING
    | SleepSched     // sched(), which gives up ptable.lock
    | Suspended      // not running until the scheduler picks it
    | SleepTidy      // chan = 0, release(&ptable.lock)
    | Held           // owns the sleep lock
    | RelWantInner   // releasesleep: acquire(&lk->lk)
    | RelClear       // lk->locked = 0
    | RelWantTable   // wakeup: acquire(&ptable.lock)
    | RelWake        // wakeup1(lk)
    | RelDropTable   // release(&ptable.lock)
    | RelLeave       // release(&lk->lk)

  datatype RunState = Running | Runnable | Sleeping

  datatype Proc = Proc(pc: Pc, st: RunState, onLock: bool)   // onLock: chan == lk

  datatype State = State(procs: seq<Proc>, locked: bool, inner: Option<nat>, table: Option<nat>)

  datatype Action =
    | Advance(p: nat)    // process p takes its next step
    | Schedule(p: nat)   // the scheduler resumes p, which then holds ptable.lock
    | Kill(p: nat)       // kill makes a sleeping process runnable

  predicate HoldsInner(pc: Pc) {
    pc == Test || pc == Take || pc == Leave || pc == SleepWantTable || pc == SleepDropInner
    || pc == RelClear || pc == RelWantTable || pc == RelWake || pc == RelDropTable || pc == RelLeave
  }

  predicate HoldsTable(pc: Pc) {
    pc == SleepDropInner || pc == SleepMark || pc == SleepSched || pc == SleepTidy
    || pc == RelWake || pc == RelDropTable
  }

  /** From taking the lock until giving it back. */
  predicate Owns(pc: Pc) {
    pc == Leave || pc == Held || pc == RelWantInner || pc == RelClear
  }

  function Woken(procs: seq<Proc>): (r: seq<Proc>)
    ensures |r| == |procs|
    ensures forall i :: 0 <= i < |procs| ==>
              r[i] == if procs[i].st == Sleeping && procs[i].onLock then procs[i].(st := Runnable) else procs[i]
  {
    seq(|procs|, i requires 0 <= i < |procs| =>
      if procs[i].st == Sleeping && procs[i].onLock then procs[i].(st := Runnable) else procs[i])
  }

  predicate Enabled(s: State, a: Action) {
    match a
    case Advance(p) =>
      p < |s.procs| &&
      (match s.procs[p].pc
       case WantInner => s.inner == None
       case RelWantInner => s.inner == None
       case SleepWantTable => s.table == None
       case RelWantTable => s.table == None
       case Suspended => false
       case _ => true)
    case Schedule(p) =>
      p < |s.procs| && s.procs[p].pc == Suspended && s.procs[p].st == Runnable && s.table == None
    case Kill(p) =>
      p < |s.procs| && s.table == None && s.procs[p].st == Sleeping
  }

  function At(s: State, p: nat, pc: Pc): State
    requires p < |s.procs|
  {
    s.(procs := s.procs[p := s.procs[p].(pc := pc)])
  }

  function Next(s: State, a: Action): State
    requires Enabled(s, a)
  {
    match a
    case Advance(p) =>
      var me := s.procs[p];
      (match me.pc
       case Idle => At(s, p, WantInner)
       case WantInner => At(s, p, Test).(inner := Some(p))
       case Test => At(s, p, if s.locked then SleepWantTable else Take)
       case Take => At(s, p, Leave).(locked := true)
       case Leave => At(s, p, Held).(inner := None)
       case SleepWantTable => At(s, p, SleepDropInner).(table := Some(p))
       case SleepDropInner => At(s, p, SleepMark).(inner := None)
       case SleepMark => s.(procs := s.procs[p := Proc(SleepSched, Sleeping, true)])
       case SleepSched => At(s, p, Suspended).(table := None)
       case Suspended => s
       case SleepTidy => s.(procs := s.procs[p := Proc(WantInner, Running, false)], table := None)
       case Held => At(s, p, RelWantInner)
       case RelWantInner => At(s, p, RelClear).(inner := Some(p))
       case RelClear => At(s, p, RelWantTable).(locked := false)
       case RelWantTable => At(s, p, RelWake).(table := Some(p))
       case RelWake => At(s.(procs := Woken(s.procs)), p, RelDropTable)
       case RelDropTable => At(s, p, RelLeave).(table := None)
       case RelLeave => At(s, p, Idle).(inner := None))
    case Schedule(p) =>
      s.(procs := s.procs[p := s.procs[p].(pc := SleepTidy, st := Running)], table := Some(p))
    case Kill(p) =>
      s.(procs := s.procs[p := s.procs[p].(st := Runnable)])
  }

  /** A process that sleeps on the lock or can no longer avoid it. */
  predicate Dozing(q: Proc) {
    q.pc == SleepMark || q.pc == SleepSched || q.st == Sleeping
  }

  ghost predicate HoldersOk(s: State, p: nat)
    requires p < |s.procs|
  {
    && (HoldsInner(s.procs[p].pc) <==> s.inner == Some(p))
    && (HoldsTable(s.procs[p].pc) <==> s.table == Some(p))
  }

  ghost predicate FlagsOk(s: State, p: nat)
    requires p < |s.procs|
  {
    var q := s.procs[p];
    && (q.st == Sleeping ==> q.onLock && (q.pc == SleepSched || q.pc == Suspended))
    && (q.pc == SleepWantTable || q.pc == SleepDropInner ==> s.locked)
    && (q.pc == Take ==> !s.locked)
    && (Owns(q.pc) ==> s.locked)
  }

  /** A dozing process will be woken: the lock is held, or its releaser has yet to call wakeup1. */
  ghost predicate ProcOk(s: State, p: nat)
    requires p < |s.procs|
  {
    HoldersOk(s, p) && FlagsOk(s, p) && (Dozing(s.procs[p]) ==> s.locked || Waking(s))
  }

  predicate Waking(s: State) {
    && s.inner.Some? && s.inner.value < |s.procs|
    && (s.procs[s.inner.value].pc == RelWantTable || s.procs[s.inner.value].pc == RelWake)
  }

  ghost predicate Inv(s: State) {
    && (forall p :: 0 <= p < |s.procs| ==> ProcOk(s, p))
    && (forall p, q :: 0 <= p < |s.procs| && 0 <= q < |s.procs| && Owns(s.procs[p].pc) && Owns(s.procs[q].pc) ==>
          p == q)
    && (s.inner.Some? ==> s.inner.value < |s.procs|)
    && (s.table.Some? ==> s.table.value < |s.procs|)
  }

  /** A step of `p` changes a spin lock's holder only from nobody to `p` or back. */
  lemma HoldersMove(s: State, p: nat)
    requires p < |s.procs| && HoldersOk(s, p) && Enabled(s, Advance(p))
    ensures var s' := Next(s, Advance(p));
            && HoldersOk(s', p)
            && (s'.inner == s.inner || (s'.inner == Some(p) && s.inner == None)
               || (s.inner == Some(p) && s'.inner == None))
            && (s'.table == s.table || (s'.table == Some(p) && s.table == None)
               || (s.table == Some(p) && s'.table == None))
  {
  }

  lemma OwnFlagsKept(s: State, p: nat)
    requires p < |s.procs| && FlagsOk(s, p) && Enabled(s, Advance(p))
    ensures FlagsOk(Next(s, Advance(p)), p)
  {
    hide HoldersOk;
  }

  /** Only the holder of the inner spin lock changes the lock's flag. */
  lemma OtherKept(s: State, p: nat, q: nat)
    requires p < |s.procs| && Enabled(s, Advance(p)) && q < |s.procs| && q != p
    requires HoldersOk(s, p) && HoldersOk(s, q) && FlagsOk(s, q) && (Owns(s.procs[q].pc) ==> !Owns(s.procs[p].pc))
    ensures HoldersOk(Next(s, Advance(p)), q) && FlagsOk(Next(s, Advance(p)), q)
  {
    var s' := Next(s, Advance(p));
    assert s'.procs[q].pc == s.procs[q].pc;
    HoldersMove(s, p);
    assert s'.locked != s.locked ==> HoldsInner(s.procs[p].pc) && !HoldsInner(s.procs[q].pc);
    assert !s'.locked && s.locked ==> s.procs[p].pc == RelClear;
  }

  lemma WakeKept(s: State, p: nat, q: nat)
    requires p < |s.procs| && q < |s.procs| && ProcOk(s, p) && ProcOk(s, q) && Enabled(s, Advance(p))
    requires s.inner.Some? ==> s.inner.value < |s.procs| && HoldersOk(s, s.inner.value)
    ensures var s' := Next(s, Advance(p)); Dozing(s'.procs[q]) ==> s'.locked || Waking(s')
  {
    var s' := Next(s, Advance(p));
    if s.procs[p].pc == RelWake {
      WakeAll(s, p, q);
    } else if s.procs[p].pc == RelClear || s.procs[p].pc == RelWantTable {
      assert Waking(s');
    } else {
      StillDozing(s, p, q);
    }
  }

  lemma StillDozing(s: State, p: nat, q: nat)
    requires p < |s.procs| && q < |s.procs| && ProcOk(s, p) && ProcOk(s, q) && Enabled(s, Advance(p))
    requires s.procs[p].pc != RelWake && s.procs[p].pc != RelClear && s.procs[p].pc != RelWantTable
    ensures var s' := Next(s, Advance(p)); Dozing(s'.procs[q]) ==> s'.locked || Waking(s')
  {
    HoldersMove(s, p);
    QuietStep(s, p, q);
    hide Next, Enabled, HoldsInner, HoldsTable, Owns, Dozing;
    assert Waking(s) ==> s.inner != Some(p);
  }

  /** A step that is not part of a release clears no flag and moves no other process. */
  lemma QuietStep(s: State, p: nat, q: nat)
    requires p < |s.procs| && q < |s.procs| && FlagsOk(s, p) && Enabled(s, Advance(p))
    requires s.procs[p].pc != RelWake && s.procs[p].pc != RelClear && s.procs[p].pc != RelWantTable
    ensures var s' := Next(s, Advance(p));
            && (s.locked ==> s'.locked) && |s'.procs| == |s.procs|
            && (forall r :: 0 <= r < |s.procs| && r != p ==> s'.procs[r] == s.procs[r])
            && (Dozing(s'.procs[q]) ==> Dozing(s.procs[q]) || s.locked)
  {
  }

  /** wakeup1 leaves nobody dozing: who is about to sleep holds the table lock, and so does its caller. */
  lemma WakeAll(s: State, p: nat, q: nat)
    requires p < |s.procs| && q < |s.procs| && ProcOk(s, p) && ProcOk(s, q) && s.procs[p].pc == RelWake
    ensures !Dozing(Next(s, Advance(p)).procs[q])
  {
  }

  /** A step moves its own process only, and makes it an owner only when it takes the lock. */
  lemma OwnerMoves(s: State, p: nat)
    requires Enabled(s, Advance(p))
    ensures var t := Next(s, Advance(p)).procs;
            && |t| == |s.procs| && (forall q :: 0 <= q < |t| && q != p ==> t[q].pc == s.procs[q].pc)
            && (Owns(t[p].pc) ==> Owns(s.procs[p].pc) || s.procs[p].pc == Take)
  {
  }

  /** The lock is taken only when nobody owns it. */
  lemma OwnersKept(s: State, p: nat)
    requires Inv(s) && Enabled(s, Advance(p))
    ensures var t := Next(s, Advance(p)).procs;
            forall q, r :: 0 <= q < |t| && 0 <= r < |t| && Owns(t[q].pc) && Owns(t[r].pc) ==> q == r
  {
    OwnerMoves(s, p);
    assert p < |s.procs|;
    hide Next, Enabled, Owns, HoldersOk, Dozing, Waking;
    assert ProcOk(s, p);
    var t := Next(s, Advance(p)).procs;
    forall q | 0 <= q < |t| && q != p && Owns(t[q].pc) ensures !Owns(t[p].pc) {
      assert ProcOk(s, q);
    }
    forall q, r | 0 <= q < |t| && 0 <= r < |t| && Owns(t[q].pc) && Owns(t[r].pc) ensures q == r {
      assert q != p && r != p ==> Owns(s.procs[q].pc) && Owns(s.procs[r].pc);
    }
  }

  lemma AdvanceKeeps(s: State, p: nat)
    requires Inv(s) && Enabled(s, Advance(p))
    ensures Inv(Next(s, Advance(p)))
  {
    OwnersKept(s, p);
    hide HoldersOk, FlagsOk, Dozing, Waking, Woken;
    var s' := Next(s, Advance(p));
    forall q | 0 <= q < |s.procs| ensures ProcOk(s', q) {
      assert ProcOk(s, p) && ProcOk(s, q);
      assert s.inner.Some? ==> ProcOk(s, s.inner.value);
      if q == p {
        HoldersMove(s, p);
        OwnFlagsKept(s, p);
      } else {
        OtherKept(s, p, q);
      }
      WakeKept(s, p, q);
    }
  }

  lemma StepKeeps(s: State, a: Action)
    requires Inv(s) && Enabled(s, a)
    ensures Inv(Next(s, a))
  {
    var s' := Next(s, a);
    match a {
      case Advance(p) => AdvanceKeeps(s, p);
      case Schedule(p) =>
        forall q | 0 <= q < |s.procs| ensures ProcOk(s', q) {
          assert ProcOk(s, q) && ProcOk(s, p);
        }
      case Kill(p) =>
        forall q | 0 <= q < |s.procs| ensures ProcOk(s', q) {
          assert ProcOk(s, q) && ProcOk(s, p);
        }
    }
  }

  /** All processes idle, the lock free. */
  function Init(n: nat): State {
    State(seq(n, _ => Proc(Idle, Running, false)), false, None, None)
  }

  /** The state after `as`, if each action was enabled when it was taken. */
  ghost function After(n: nat, actions: seq<Action>): (r: Option<State>)
    ensures r.Some? ==> Inv(r.value)
  {
    if actions == [] then Some(Init(n))
    else
      var k := |actions| - 1;
      match After(n, actions[..k])
      case None => None
      case Some(s) =>
        if Enabled(s, actions[k]) then
          StepKeeps(s, actions[k]);
          Some(Next(s, actions[k]))
        else None
  }

  /**
   In every interleaving at most one process owns the sleep lock, and whenever both spin
   locks are free, a process that sleeps on the lock means that the lock is held: no
   wakeup is ever lost.
   */
  lemma NoLostWakeup(n: nat, actions: seq<Action>)
    requires After(n, actions).Some?
    ensures var s := After(n, actions).value;
            && (forall p, q | 0 <= p < |s.procs| && 0 <= q < |s.procs| ::
                  s.procs[p].pc == Held && s.procs[q].pc == Held ==> p == q)
            && (s.inner == None && s.table == None ==>
                  forall p :: 0 <= p < |s.procs| && s.procs[p].st == Sleeping ==>
                    s.procs[p].onLock && s.locked)
  {
    var s := After(n, actions).value;
    forall p | 0 <= p < |s.procs| && s.procs[p].st == Sleeping && s.inner == None
      ensures s.procs[p].onLock && s.locked
    {
      assert ProcOk(s, p);
    }
  }

  /** A held lock has an owner that is on its way to release it. */
  lemma LockedHasOwner(n: nat, actions: seq<Action>)
    requires After(n, actions).Some? && After(n, actions).value.locked
    ensures exists p :: 0 <= p < |After(n, actions).value.procs| && Owns(After(n, actions).value.procs[p].pc)
    decreases |actions|
  {
    hide Inv, Enabled, Next;
    if actions != [] {
      var k := |actions| - 1;
      var s := After(n, actions[..k]).value;
      if s.locked {
        LockedHasOwner(n, actions[..k]);
      }
      OwnerStep(s, actions[k]);
    }
  }

  lemma OwnerStep(s: State, a: Action)
    requires Inv(s) && Enabled(s, a) && Next(s, a).locked
    requires s.locked ==> exists p :: 0 <= p < |s.procs| && Owns(s.procs[p].pc)
    ensures exists p :: 0 <= p < |Next(s, a).procs| && Owns(Next(s, a).procs[p].pc)
  {
    var s' := Next(s, a);
    if s.locked {
      var p :| 0 <= p < |s.procs| && Owns(s.procs[p].pc);
      assert ProcOk(s, p);
      assert Owns(s'.procs[p].pc);
    } else {
      assert Owns(s'.procs[a.p].pc);
    }
  }
}
