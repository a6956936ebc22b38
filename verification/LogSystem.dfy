/**
 The log object over its buffer cache runs the system of GroupCommit: every call of begin_op,
 of a log_write with the bread before and the brelse after it, of end_op with its commit, and
 every restart is a run of that system's steps, on the same disk and with the same view.  So
 what is proved of all runs holds for the buffers and the disk of the object.
 */
module LogSystem {

  import opened Basics
  import opened Blocks
  import opened BufferCache
  import opened LogCrash
  import opened Log
  import GroupCommit

  type Sys = GroupCommit.Sys
  type Step = GroupCommit.Step
  type Op = GroupCommit.Op

  ghost predicate BootsOn(a: Area, image: Disk) {
    a.Readable(image) && Header(image[a.start]) == []
  }

  function Repeat(step: Step, k: nat): (steps: seq<Step>)
    ensures |steps| == k
  {
    seq(k, _ => step)
  }

  lemma RepeatNext(steps: seq<Step>, step: Step, k: nat)
    ensures steps + Repeat(step, k + 1) == steps + Repeat(step, k) + [step]
  {
  }

  /** The run that is `steps` and then one more step. */
  lemma OneMore(a: Area, image: Disk, steps: seq<Step>, s: Sys, step: Step)
    requires BootsOn(a, image) && GroupCommit.After(a, image, steps) == Some(s)
    requires GroupCommit.Inv(a, image, s) && GroupCommit.Enabled(a, image, s, step)
    ensures GroupCommit.After(a, image, steps + [step]) == Some(GroupCommit.Do(a, image, s, step))
    ensures GroupCommit.Inv(a, image, GroupCommit.Do(a, image, s, step))
  {
    hide GroupCommit.Inv, GroupCommit.Enabled, GroupCommit.Do, GroupCommit.After;
    GroupCommit.RunStep(a, image, steps, step);
    GroupCommit.StepKeeps(a, image, s, step);
  }

  lemma Reached(a: Area, image: Disk, steps: seq<Step>, s: Sys)
    requires BootsOn(a, image) && GroupCommit.After(a, image, steps) == Some(s)
    ensures GroupCommit.Inv(a, image, s) && s.durable <= |s.hist|
  {
    hide GroupCommit.PhaseOk, GroupCommit.Enabled, GroupCommit.Do;
  }

  // ---------- a whole commit, a whole recovery ----------

  /** The system with `k` block writes of its commit done. */
  ghost function Part(a: Area, s: Sys, k: nat): Sys
    requires a.Transaction(s.lh, s.view) && |s.disk| == |s.view| && k <= |CommitWrites(a, s.lh, s.view)|
  {
    s.(disk := Crashed(a, s.disk, s.lh, s.view, k), phase := GroupCommit.Committing(s.disk, k),
       durable := if k > |s.lh| then |s.hist| else s.durable)
  }

  lemma PartNext(a: Area, image: Disk, s: Sys, k: nat)
    requires a.Transaction(s.lh, s.view) && |s.disk| == |s.view| && k < |CommitWrites(a, s.lh, s.view)|
    requires GroupCommit.Inv(a, image, Part(a, s, k))
    ensures GroupCommit.Enabled(a, image, Part(a, s, k), GroupCommit.CommitWrite)
    ensures GroupCommit.Do(a, image, Part(a, s, k), GroupCommit.CommitWrite) == Part(a, s, k + 1)
  {
    hide GroupCommit.Inv, Apply, WithHeader;
    GroupCommit.CommitInRange(a, s.lh, s.view);
    ApplyNext(s.disk, CommitWrites(a, s.lh, s.view), k);
  }

  lemma {:induction false} CommitRun(a: Area, image: Disk, steps: seq<Step>, s: Sys, k: nat)
    requires BootsOn(a, image) && GroupCommit.After(a, image, steps) == Some(s)
    requires s.phase == GroupCommit.Committing(s.disk, 0) && s.durable <= |s.hist|
    requires a.Transaction(s.lh, s.view) && |s.disk| == |s.view| && k <= |CommitWrites(a, s.lh, s.view)|
    ensures GroupCommit.After(a, image, steps + Repeat(GroupCommit.CommitWrite, k)) == Some(Part(a, s, k))
    decreases k
  {
    hide GroupCommit.Inv, GroupCommit.Enabled, GroupCommit.Do, GroupCommit.After, Part;
    if k == 0 {
      assert steps + Repeat(GroupCommit.CommitWrite, 0) == steps;
      PartNone(a, s);
    } else {
      CommitRun(a, image, steps, s, k - 1);
      var before := steps + Repeat(GroupCommit.CommitWrite, k - 1);
      Reached(a, image, before, Part(a, s, k - 1));
      PartNext(a, image, s, k - 1);
      OneMore(a, image, before, Part(a, s, k - 1), GroupCommit.CommitWrite);
      RepeatNext(steps, GroupCommit.CommitWrite, k - 1);
    }
  }

  lemma PartNone(a: Area, s: Sys)
    requires a.Transaction(s.lh, s.view) && |s.disk| == |s.view| && s.phase == GroupCommit.Committing(s.disk, 0)
    ensures Part(a, s, 0) == s
  {
    assert CommitWrites(a, s.lh, s.view)[..0] == [];
  }

  /** The steps of a commit from its first block write to the end. */
  ghost function WholeCommit(a: Area, lh: seq<Uint>, view: Disk): seq<Step>
    requires a.Transaction(lh, view)
  {
    Repeat(GroupCommit.CommitWrite, |CommitWrites(a, lh, view)|) + [GroupCommit.CommitEnd]
  }

  /** The system that a whole commit leaves. */
  ghost function Committed(a: Area, s: Sys): Sys
    requires a.Transaction(s.lh, s.view) && |s.disk| == |s.view|
  {
    var d := Crashed(a, s.disk, s.lh, s.view, |CommitWrites(a, s.lh, s.view)|);
    s.(disk := d, view := d, lh := [], committing := false, phase := GroupCommit.Running,
       durable := if s.lh == [] then s.durable else |s.hist|)
  }

  lemma CommitRuns(a: Area, image: Disk, steps: seq<Step>, s: Sys)
    requires BootsOn(a, image) && GroupCommit.After(a, image, steps) == Some(s)
    requires s.phase == GroupCommit.Committing(s.disk, 0) && s.durable <= |s.hist|
    requires a.Transaction(s.lh, s.view) && |s.disk| == |s.view|
    ensures GroupCommit.After(a, image, steps + WholeCommit(a, s.lh, s.view)) == Some(Committed(a, s))
  {
    hide GroupCommit.Inv, GroupCommit.After, Apply, WithHeader;
    var k := |CommitWrites(a, s.lh, s.view)|;
    CommitRun(a, image, steps, s, k);
    var before := steps + Repeat(GroupCommit.CommitWrite, k);
    Reached(a, image, before, Part(a, s, k));
    OneMore(a, image, before, Part(a, s, k), GroupCommit.CommitEnd);
    assert steps + WholeCommit(a, s.lh, s.view) == before + [GroupCommit.CommitEnd];
  }

  /** A system after a crash with `k` block writes of its recovery done. */
  ghost function Healing(a: Area, s: Sys, k: nat): Sys
    requires a.Readable(s.disk) && k <= |RecoveryWrites(a, s.disk)| && s.durable <= |s.hist|
  {
    s.(lh := [], outstanding := 0, committing := false, ops := map[], hist := s.hist[..s.durable],
       disk := Apply(s.disk, RecoveryWrites(a, s.disk)[..k]), phase := GroupCommit.Recovering(s.disk, k))
  }

  lemma HealingNext(a: Area, image: Disk, s: Sys, k: nat)
    requires a.Readable(s.disk) && k < |RecoveryWrites(a, s.disk)| && s.durable <= |s.hist|
    requires GroupCommit.Inv(a, image, Healing(a, s, k))
    ensures GroupCommit.Enabled(a, image, Healing(a, s, k), GroupCommit.RecoverWrite)
    ensures GroupCommit.Do(a, image, Healing(a, s, k), GroupCommit.RecoverWrite) == Healing(a, s, k + 1)
  {
    hide GroupCommit.Inv, Apply, WithHeader, Header;
    ApplyNext(s.disk, RecoveryWrites(a, s.disk), k);
  }

  lemma {:induction false} RecoverRun(a: Area, image: Disk, steps: seq<Step>, s: Sys, k: nat)
    requires BootsOn(a, image) && GroupCommit.After(a, image, steps) == Some(s) && s.durable <= |s.hist|
    requires a.Readable(s.disk) && k <= |RecoveryWrites(a, s.disk)|
    ensures GroupCommit.After(a, image, steps + [GroupCommit.Crash] + Repeat(GroupCommit.RecoverWrite, k))
            == Some(Healing(a, s, k))
    decreases k
  {
    hide GroupCommit.Inv, GroupCommit.Enabled, GroupCommit.Do, GroupCommit.After, Healing;
    var crashed := steps + [GroupCommit.Crash];
    if k == 0 {
      assert crashed + Repeat(GroupCommit.RecoverWrite, 0) == crashed;
      Reached(a, image, steps, s);
      HealingNone(a, image, s);
      OneMore(a, image, steps, s, GroupCommit.Crash);
    } else {
      RecoverRun(a, image, steps, s, k - 1);
      var before := crashed + Repeat(GroupCommit.RecoverWrite, k - 1);
      Reached(a, image, before, Healing(a, s, k - 1));
      HealingNext(a, image, s, k - 1);
      OneMore(a, image, before, Healing(a, s, k - 1), GroupCommit.RecoverWrite);
      RepeatNext(crashed, GroupCommit.RecoverWrite, k - 1);
    }
  }

  lemma HealingNone(a: Area, image: Disk, s: Sys)
    requires a.Readable(s.disk) && s.durable <= |s.hist| && GroupCommit.Inv(a, image, s)
    ensures GroupCommit.Enabled(a, image, s, GroupCommit.Crash)
    ensures GroupCommit.Do(a, image, s, GroupCommit.Crash) == Healing(a, s, 0)
  {
    hide GroupCommit.Inv, WithHeader, Header;
    assert RecoveryWrites(a, s.disk)[..0] == [];
    ApplyNone(s.disk);
  }

  /** A crash and a whole recovery. */
  ghost function WholeRecovery(a: Area, s: Sys): seq<Step>
    requires a.Readable(s.disk)
  {
    [GroupCommit.Crash] + Repeat(GroupCommit.RecoverWrite, |RecoveryWrites(a, s.disk)|) + [GroupCommit.RecoverEnd]
  }

  /** The system that a crash and a whole recovery leave. */
  ghost function Restarted(a: Area, s: Sys): Sys
    requires a.Readable(s.disk) && s.durable <= |s.hist|
  {
    s.(lh := [], outstanding := 0, committing := false, ops := map[], hist := s.hist[..s.durable],
       disk := Recover(a, s.disk), view := Recover(a, s.disk), phase := GroupCommit.Running)
  }

  lemma RestartedOk(a: Area, s: Sys)
    requires a.Readable(s.disk) && s.durable <= |s.hist|
    ensures var s' := Restarted(a, s);
            && s'.phase.Running? && s'.lh == [] && s'.outstanding == 0 && !s'.committing
            && s'.disk == s'.view == Recover(a, s.disk)
  {
  }

  lemma RecoverRuns(a: Area, image: Disk, steps: seq<Step>, s: Sys)
    requires BootsOn(a, image) && GroupCommit.After(a, image, steps) == Some(s) && s.durable <= |s.hist|
    requires a.Readable(s.disk)
    ensures GroupCommit.After(a, image, steps + WholeRecovery(a, s)) == Some(Restarted(a, s))
  {
    hide GroupCommit.Inv, GroupCommit.After, Apply, WithHeader, Header;
    var k := |RecoveryWrites(a, s.disk)|;
    RecoverRun(a, image, steps, s, k);
    var before := steps + [GroupCommit.Crash] + Repeat(GroupCommit.RecoverWrite, k);
    Reached(a, image, before, Healing(a, s, k));
    OneMore(a, image, before, Healing(a, s, k), GroupCommit.RecoverEnd);
    assert RecoveryWrites(a, s.disk)[..k] == RecoveryWrites(a, s.disk);
    assert steps + WholeRecovery(a, s) == before + [GroupCommit.RecoverEnd];
  }

  // ---------- the object ----------

  /** Everything that no buffer holds dirty is on disk as the view shows it, if nobody holds a buffer. */
  lemma AllClean(bc: Bcache)
    requires bc.Valid() && Quiet(bc.buf) && Dirty(bc.buf) == {}
    ensures bc.view == bc.disk
  {
    hide Dirty, Linked, Permutation;
    forall n: nat | n < |bc.view| ensures bc.view[n] == bc.disk[n] {
      QuietBlock(bc, n);
    }
  }

  lemma QuietBlock(bc: Bcache, n: nat)
    requires bc.Valid() && Quiet(bc.buf) && n < |bc.view| && n !in Dirty(bc.buf)
    ensures n < |bc.disk| && bc.view[n] == bc.disk[n]
  {
    hide Dirty, Linked, Permutation;
    if n in bc.where {
      assert BufOk(bc.buf[bc.where[n]], bc.view, bc.disk);
    }
    CleanBlock(bc.buf, bc.where, bc.view, bc.disk, n);
  }

  class System {
    const log: Log
    ghost const image: Disk
    ghost var steps: seq<Step>

    /** The run so far. */
    ghost function Sys(): Sys
      reads this
      requires BootsOn(log.area, image) && GroupCommit.After(log.area, image, steps).Some?
    {
      GroupCommit.After(log.area, image, steps).value
    }

    /** The object is where the run is: same disk, view, header and counters; exactly the logged blocks are pinned. */
    ghost predicate Valid()
      reads this, log, log.bc
    {
      && BootsOn(log.area, image)
      && GroupCommit.After(log.area, image, steps).Some? && Sys().phase.Running?
      && log.Valid() && Dirty(log.bc.buf) == Blocknos(log.Lh())
      && log.bc.disk == Sys().disk && log.bc.view == Sys().view && log.Lh() == Sys().lh
      && log.outstanding == Sys().outstanding && log.committing == Sys().committing
    }

    /**
     initlog on the disk that any run has left, at whatever point: in the middle of a commit, of a
     recovery, or never started.  The run goes on with a crash and a whole recovery.
     */
    constructor (area: Area, disk: Disk, ghost image: Disk, ghost before: seq<Step>)
      requires BootsOn(area, image)
      requires GroupCommit.After(area, image, before).Some? && GroupCommit.After(area, image, before).value.disk == disk
      ensures Valid() && log.area == area && this.image == image && fresh(log) && fresh(log.bc)
      ensures area.Readable(disk) && steps == before + WholeRecovery(area, GroupCommit.After(area, image, before).value)
    {
      hide GroupCommit.After, GroupCommit.Inv, Apply, Header, Word, Linked, Permutation, Dirty, Indexed, BufOk,
           Restarted,
           RecoveryWrites, WholeRecovery;
      ghost var s := GroupCommit.After(area, image, before).value;
      Reached(area, image, before, s);
      GroupCommit.Durability(area, image, s);
      var bc := new Bcache(disk);
      var l := new Log(bc, area);
      FreshCache(bc.buf);
      l.RecoverFromLog();
      log, this.image, steps := l, image, before + WholeRecovery(area, s);
      RecoverRuns(area, image, before, s);
      RestartedOk(area, s);
      new;
    }

    /** begin_op, one pass: it enters exactly if the operation's whole log space can be set aside. */
    method Begin(op: Op) returns (entered: bool)
      requires Valid() && op !in Sys().used
      modifies this`steps, log`outstanding
      ensures Valid() && (entered <==> !log.committing && log.n + (old(log.outstanding) + 1) * 10 <= 30)
      ensures steps == if entered then old(steps) + [GroupCommit.Begin(op)] else old(steps)
    {
      hide GroupCommit.After, GroupCommit.Inv, Apply, Header, Word, Consistent, Linked, Permutation, Dirty, Blocknos,
           GroupCommit.Do, GroupCommit.Enabled;
      ghost var s := Sys();
      Reached(log.area, image, steps, s);
      entered := log.BeginOp();
      if entered {
        BeginFacts(log.area, image, s, op);
        OneMore(log.area, image, steps, s, GroupCommit.Begin(op));
        steps := steps + [GroupCommit.Begin(op)];
      }
    }

    /**
     bread and brelse: the block as the log_writes of the run have left it, or, exactly if a
     transaction without it fills the cache, no buffer.
     */
    method Read(n: nat) returns (ok: bool, data: Block)
      requires Valid() && n < |log.bc.view|
      modifies log.bc
      ensures ok <==> log.n < NBUF || n in log.Lh()
      ensures ok ==> Valid() && data == Sys().view[n]
      ensures log.bc.disk == old(log.bc.disk) && log.bc.writes == old(log.bc.writes)
    {
      hide GroupCommit.After, GroupCommit.Inv, Apply, Header, Word, Consistent, Linked, Permutation, Dirty;
      Pinned(log.area, log.Lh(), log.bc.view);
      ok, data := log.ReadBlock(n);
    }

    /** An operation changes a block and logs it, within its log space; otherwise the log is too big already. */
    method Write(op: Op, n: Uint, data: Block) returns (ok: bool)
      requires Valid() && op in Sys().ops && (n in log.Lh() || Sys().ops[op] < MAXOPBLOCKS)
      requires n < |log.bc.view| && log.area.Home(n)
      modifies this`steps, log`n, log`block, log.bc
      ensures ok <==> old(log.n) < 30 && old(log.n) + 1 < log.area.size
      ensures ok ==> Valid() && steps == old(steps) + [GroupCommit.LogWrite(op, n, data)]
      ensures log.bc.disk == old(log.bc.disk) && log.bc.writes == old(log.bc.writes)
    {
      hide GroupCommit.After, GroupCommit.Inv, Apply, Header, Word, Consistent, Linked, Permutation, Dirty, Blocknos,
           GroupCommit.Do, GroupCommit.Enabled;
      ghost var s := Sys();
      Reached(log.area, image, steps, s);
      Outstanding(log.area, image, s, op);
      Pinned(log.area, log.Lh(), log.bc.view);
      ListedMore(log.Lh(), n);
      ok := log.Update(n, data);
      if ok {
        WriteFacts(log.area, image, s, op, n, data);
        OneMore(log.area, image, steps, s, GroupCommit.LogWrite(op, n, data));
        steps := steps + [GroupCommit.LogWrite(op, n, data)];
      }
    }

    /**
     end_op; the last operation out commits, and leaves the view on disk and every buffer clean.  A
     transaction that fills the cache leaves the commit no buffer: it stops before the header is
     written, in a state of the run.
     */
    method End(op: Op) returns (ok: bool, committed: bool)
      requires Valid() && op in Sys().ops
      modifies this`steps, log`n, log`outstanding, log`committing, log.bc
      ensures committed == (old(log.outstanding) == 1) && (ok <==> committed ==> old(log.n) < NBUF)
      ensures log.area.Transaction(old(log.Lh()), old(log.bc.view))
      ensures ok ==> Valid()
      ensures ok ==>
                steps == old(steps) + [GroupCommit.End(op)]
                         + if committed then WholeCommit(log.area, old(log.Lh()), old(log.bc.view)) else []
      ensures ok && committed ==> log.n == 0 && log.bc.view == log.bc.disk && Dirty(log.bc.buf) == {}
      ensures ok ==>
                log.bc.writes == old(log.bc.writes)
                                 + if committed then CommitWrites(log.area, old(log.Lh()), old(log.bc.view)) else []
      ensures !ok ==> log.n == old(log.n) && Halfway(old(steps) + [GroupCommit.End(op)], log.n)
    {
      hide GroupCommit.After, GroupCommit.Inv, Apply, Header, Word, Consistent, Linked, Permutation, Dirty, Blocknos,
           GroupCommit.Do, GroupCommit.Enabled, CommitWrites, WholeCommit, Halfway;
      ghost var s := Sys();
      Reached(log.area, image, steps, s);
      EndFacts(log.area, image, s, op);
      OneMore(log.area, image, steps, s, GroupCommit.End(op));
      ghost var s1 := GroupCommit.Do(log.area, image, s, GroupCommit.End(op));
      steps := steps + [GroupCommit.End(op)];
      ok, committed := log.EndOp();
      if committed {
        ok := Finish(s1);
      }
    }

    /** The disk is that of the run `before` and some of the commit's first `n` block writes. */
    ghost predicate Halfway(before: seq<Step>, n: nat)
      reads this, log, log.bc
      requires BootsOn(log.area, image)
    {
      exists k: nat :: k <= n &&
        var r := GroupCommit.After(log.area, image, before + Repeat(GroupCommit.CommitWrite, k));
        r.Some? && r.value.disk == log.bc.disk
    }

    /** The commit of end_op. */
    method Finish(ghost s: Sys) returns (ok: bool)
      requires BootsOn(log.area, image)
      requires GroupCommit.After(log.area, image, steps) == Some(s) && s.phase == GroupCommit.Committing(s.disk, 0)
      requires CommitReady(log.area, s.disk, s.lh, s.view) && s.durable <= |s.hist|
      requires log.Valid() && Dirty(log.bc.buf) == Blocknos(log.Lh())
      requires log.bc.disk == s.disk && log.bc.view == s.view && log.Lh() == s.lh && log.outstanding == s.outstanding
      modifies this`steps, log`n, log`committing, log.bc
      ensures ok <==> old(log.n) < NBUF
      ensures ok ==> Valid() && steps == old(steps) + WholeCommit(log.area, s.lh, s.view)
      ensures ok ==> log.n == 0 && log.bc.view == log.bc.disk && Dirty(log.bc.buf) == {}
      ensures ok ==> log.bc.writes == old(log.bc.writes) + CommitWrites(log.area, s.lh, s.view)
      ensures !ok ==> steps == old(steps) && log.n == old(log.n) && Halfway(steps, log.n)
    {
      hide GroupCommit.After, GroupCommit.Inv, Apply, Header, Word, Consistent, Linked, Permutation, Dirty, WholeCommit,
           CommitWrites, LogWrites, CanCopy;
      Pinned(log.area, log.Lh(), log.bc.view);
      ok := log.Commit();
      if !ok {
        ghost var k: nat :| k <= |LogWrites(log.area, s.lh, s.view)|
                            && log.bc.disk == Apply(s.disk, LogWrites(log.area, s.lh, s.view)[..k]);
        LogFirst(log.area, s.lh, s.view, k);
        CommitRun(log.area, image, steps, s, k);
        return;
      }
      log.committing := false;
      AllClean(log.bc);
      CommitRuns(log.area, image, steps, s);
      steps := steps + WholeCommit(log.area, s.lh, s.view);
      ghost var ws := CommitWrites(log.area, s.lh, s.view);
      assert ws[..|ws|] == ws;
    }

    /**
     Write-ahead, for the buffers: the cache shows every log_write of the run, the disk only those
     that are durable, and it recovers to these.  What the disk lacks is in a buffer that is
     pinned, and exactly the logged blocks are pinned.
     */
    lemma Shown()
      requires Valid()
      ensures var s := Sys();
              && GroupCommit.InRange(log.area, image, s.hist) && s.durable <= |s.hist|
              && SameHome(log.area, log.bc.view, GroupCommit.State(log.area, image, s.hist))
              && SameHome(log.area, log.bc.disk, GroupCommit.State(log.area, image, s.hist[..s.durable]))
              && log.area.Readable(log.bc.disk)
              && SameHome(log.area, Recover(log.area, log.bc.disk),
                          GroupCommit.State(log.area, image, s.hist[..s.durable]))
      ensures |log.bc.disk| == |log.bc.view|
      ensures forall n: nat :: n < |log.bc.view| && n !in Dirty(log.bc.buf) ==> log.bc.view[n] == log.bc.disk[n]
      ensures forall n: nat :: n in Dirty(log.bc.buf) <==> n in log.Lh()
    {
      hide GroupCommit.After, Apply, Header, Word, Consistent, Linked, Permutation, Dirty, GroupCommit.State, Recover;
      Reached(log.area, image, steps, Sys());
      GroupCommit.Durability(log.area, image, Sys());
      forall n: nat | n < |log.bc.view| && n !in Dirty(log.bc.buf) ensures log.bc.view[n] == log.bc.disk[n] {
        QuietBlock(log.bc, n);
      }
    }
  }

  /** With exactly the listed blocks pinned, there is room exactly if the list is shorter than the cache. */
  lemma Pinned(a: Area, lh: seq<Uint>, view: Disk)
    requires a.Transaction(lh, view)
    ensures |Blocknos(lh)| == |lh| && (Room(Blocknos(lh), lh) <==> |lh| < NBUF)
    ensures forall n: nat :: n in Blocknos(lh) <==> n in lh
  {
    LargeStops(lh);
  }

  lemma ListedMore(lh: seq<Uint>, n: Uint)
    ensures Blocknos(Logged(lh, n)) == Blocknos(lh) + {n}
  {
  }

  /** The first block writes of a commit are those of write_log. */
  lemma LogFirst(a: Area, lh: seq<Uint>, view: Disk, k: nat)
    requires a.Transaction(lh, view) && k <= |LogWrites(a, lh, view)|
    ensures k <= |lh| && k <= |CommitWrites(a, lh, view)|
    ensures LogWrites(a, lh, view)[..k] == CommitWrites(a, lh, view)[..k]
  {
    hide WithHeader;
  }

  /** What begin_op does to the system. */
  lemma BeginFacts(a: Area, image: Disk, s: Sys, op: Op)
    requires GroupCommit.Inv(a, image, s) && s.phase.Running? && op !in s.used
    requires !MustWait(|s.lh|, s.outstanding, s.committing)
    ensures GroupCommit.Enabled(a, image, s, GroupCommit.Begin(op))
    ensures var s' := GroupCommit.Do(a, image, s, GroupCommit.Begin(op));
            && s'.disk == s.disk && s'.view == s.view && s'.lh == s.lh && s'.phase == s.phase
            && s'.outstanding == s.outstanding + 1 && s'.committing == s.committing
  {
    hide GroupCommit.Inv;
  }

  lemma Outstanding(a: Area, image: Disk, s: Sys, op: Op)
    requires GroupCommit.Inv(a, image, s) && op in s.ops
    ensures s.outstanding > 0
  {
    hide GroupCommit.PhaseOk, GroupCommit.Whole, GroupCommit.Unspent;
    GroupCommit.UnspentWithout(s.ops, op);
  }

  /** What a log_write does to the system. */
  lemma WriteFacts(a: Area, image: Disk, s: Sys, op: Op, n: Uint, data: Block)
    requires GroupCommit.Inv(a, image, s) && s.phase.Running? && op in s.ops && !TooBig(|s.lh|, a.size)
    requires a.Home(n) && n < |s.view| && (n in s.lh || s.ops[op] < MAXOPBLOCKS)
    ensures GroupCommit.Enabled(a, image, s, GroupCommit.LogWrite(op, n, data))
    ensures var s' := GroupCommit.Do(a, image, s, GroupCommit.LogWrite(op, n, data));
            && s'.disk == s.disk && s'.view == s.view[n := data] && s'.lh == Logged(s.lh, n) && s'.phase == s.phase
            && s'.outstanding == s.outstanding && s'.committing == s.committing
  {
    hide GroupCommit.Inv, Logged;
  }

  /** What end_op does to the system. */
  lemma EndFacts(a: Area, image: Disk, s: Sys, op: Op)
    requires GroupCommit.Inv(a, image, s) && s.phase.Running? && op in s.ops
    ensures GroupCommit.Enabled(a, image, s, GroupCommit.End(op)) && 0 < s.outstanding && !s.committing
    ensures CommitReady(a, s.disk, s.lh, s.view) && s.durable <= |s.hist|
    ensures var s' := GroupCommit.Do(a, image, s, GroupCommit.End(op));
            && s'.disk == s.disk && s'.view == s.view && s'.lh == s.lh && s'.hist == s.hist && s'.durable == s.durable
            && s'.outstanding == s.outstanding - 1 && s'.committing == (s.outstanding == 1)
            && s'.phase == if s.outstanding == 1 then GroupCommit.Committing(s.disk, 0) else GroupCommit.Running
  {
    hide GroupCommit.State, GroupCommit.Unspent, CommitReady;
    GroupCommit.UnspentWithout(s.ops, op);
  }

  lemma FreshCache(buf: seq<Buf>)
    requires |buf| == NBUF && forall b :: 0 <= b < NBUF ==> buf[b] == FRESH_BUF
    ensures Quiet(buf) && Dirty(buf) == {}
  {
  }

  // ---------- a commit without buffers ----------

  /** The last step of a run was enabled, and gave the state it is in. */
  lemma Stepped(a: Area, image: Disk, steps: seq<Step>, step: Step)
    requires BootsOn(a, image) && GroupCommit.After(a, image, steps + [step]).Some?
    ensures GroupCommit.After(a, image, steps).Some?
    ensures var s := GroupCommit.After(a, image, steps).value;
            && GroupCommit.Enabled(a, image, s, step)
            && GroupCommit.After(a, image, steps + [step]).value == GroupCommit.Do(a, image, s, step)
  {
    hide GroupCommit.Inv, GroupCommit.Enabled, GroupCommit.Do;
    assert (steps + [step])[..|steps|] == steps;
  }

  /** `j` operations have begun, and nothing is listed. */
  ghost predicate Begun(s: Sys, j: nat) {
    && s.phase.Running? && !s.committing && s.outstanding == j && s.lh == []
    && (forall op :: op in s.ops <==> 0 <= op < j) && (forall op :: op in s.ops ==> s.ops[op] == 0)
    && (forall op :: op in s.used ==> op < j)
  }

  lemma BegunNext(a: Area, image: Disk, s: Sys, j: nat)
    requires GroupCommit.Inv(a, image, s) && Begun(s, j) && GroupCommit.Enabled(a, image, s, GroupCommit.Begin(j))
    ensures Begun(GroupCommit.Do(a, image, s, GroupCommit.Begin(j)), j + 1)
  {
    hide GroupCommit.Inv, GroupCommit.Enabled;
  }

  lemma BegunThree(a: Area, s: Sys)
    requires Begun(s, 3)
    ensures GroupCommit.Filled(a, s, 0)
  {
    assert s.ops == map[0 := 0, 1 := 0, 2 := 0];
  }

  /** Three operations that have listed 30 blocks, of which `j` have ended. */
  ghost predicate Ending(s: Sys, j: nat) {
    s.phase.Running? && s.outstanding == 3 - j && |s.lh| == LOGSIZE && forall op: nat :: j <= op < 3 ==> op in s.ops
  }

  lemma EndingNext(a: Area, image: Disk, s: Sys, j: nat)
    requires GroupCommit.Inv(a, image, s) && j < 2 && Ending(s, j)
    requires GroupCommit.Enabled(a, image, s, GroupCommit.End(j))
    ensures Ending(GroupCommit.Do(a, image, s, GroupCommit.End(j)), j + 1)
  {
    hide GroupCommit.Inv, GroupCommit.Unspent;
  }

  /** The system of three operations that has just started on an empty log. */
  method Start(area: Area, image: Disk) returns (sys: System)
    requires BootsOn(area, image)
    ensures fresh(sys) && fresh(sys.log) && fresh(sys.log.bc) && sys.Valid()
    ensures sys.log.area == area && sys.image == image && GroupCommit.Filled(area, sys.Sys(), 0)
  {
    hide GroupCommit.After, GroupCommit.Inv, GroupCommit.Do, GroupCommit.Enabled, Consistent, Linked, Permutation,
         Dirty, Blocknos, Header, Word, Begun, GroupCommit.Filled;
    Booted(area, image);
    sys := new System(area, image, image, []);
    BootBegun(area, image);
    var j := 0;
    while j < 3
      invariant 0 <= j <= 3 && sys.Valid() && sys.log.area == area && sys.image == image && Begun(sys.Sys(), j)
      invariant fresh(sys) && fresh(sys.log) && fresh(sys.log.bc)
    {
      ghost var steps := sys.steps;
      BegunFacts(sys.Sys(), j);
      var entered := sys.Begin(j);
      Stepped(area, image, steps, GroupCommit.Begin(j));
      BegunNext(area, image, GroupCommit.After(area, image, steps).value, j);
      j := j + 1;
    }
    BegunThree(area, sys.Sys());
  }

  lemma Booted(a: Area, image: Disk)
    requires BootsOn(a, image)
    ensures GroupCommit.After(a, image, []) == Some(GroupCommit.Boot(image)) && GroupCommit.Boot(image).disk == image
  {
    hide GroupCommit.Inv;
  }

  lemma BootBegun(a: Area, image: Disk)
    requires BootsOn(a, image)
    ensures a.Readable(GroupCommit.Boot(image).disk)
    ensures var steps := [] + WholeRecovery(a, GroupCommit.Boot(image));
            && GroupCommit.After(a, image, steps).Some? && Begun(GroupCommit.After(a, image, steps).value, 0)
  {
    hide GroupCommit.After, GroupCommit.Inv, Header;
    Booted(a, image);
    RecoverRuns(a, image, [], GroupCommit.Boot(image));
  }

  lemma BegunFacts(s: Sys, j: nat)
    requires Begun(s, j) && j < 3
    ensures j !in s.used && s.lh == [] && s.outstanding == j && !s.committing
  {
  }

  /**
   A log of more than LOGSIZE blocks lets three operations list as many blocks as there are buffers:
   the commit at the end of the last one finds none for the first log block.
   */
  method FullCommit(area: Area, image: Disk) returns (sys: System, ok: bool)
    requires BootsOn(area, image) && area.size > LOGSIZE
    requires area.start + area.size + LOGSIZE <= |image| && |image| <= UINT_LIMIT
    ensures fresh(sys) && sys.log.area == area && sys.log.n == NBUF && !ok
  {
    hide GroupCommit.After, GroupCommit.Inv, GroupCommit.Do, GroupCommit.Enabled, Consistent, Linked, Permutation,
         Dirty, Blocknos, Header, Word, GroupCommit.Filled, Ending;
    sys := Start(area, image);
    var i := 0;
    while i < LOGSIZE
      invariant 0 <= i <= LOGSIZE && sys.Valid() && sys.log.area == area && sys.image == image
      invariant GroupCommit.Filled(area, sys.Sys(), i) && fresh(sys) && fresh(sys.log) && fresh(sys.log.bc)
    {
      ghost var s, steps := sys.Sys(), sys.steps;
      var op, n := i / MAXOPBLOCKS, area.start + area.size + i;
      Reached(area, image, steps, s);
      GroupCommit.FillStep(area, image, s, i);
      Listing(area, image, s, i, op, n);
      ok := sys.Write(op, n, ZERO_BLOCK);
      Stepped(area, image, steps, GroupCommit.LogWrite(op, n, ZERO_BLOCK));
      i := i + 1;
    }
    AllListed(area, sys.Sys());
    var j := 0;
    while j < 2
      invariant 0 <= j <= 2 && sys.Valid() && sys.log.area == area && sys.image == image
      invariant Ending(sys.Sys(), j) && fresh(sys) && fresh(sys.log) && fresh(sys.log.bc)
    {
      ghost var s, steps := sys.Sys(), sys.steps;
      Reached(area, image, steps, s);
      EndingFacts(s, j);
      var committed;
      ok, committed := sys.End(j);
      assert sys.steps == steps + [GroupCommit.End(j)];
      Stepped(area, image, steps, GroupCommit.End(j));
      EndingNext(area, image, s, j);
      j := j + 1;
    }
    EndingFacts(sys.Sys(), 2);
    var last;
    ok, last := sys.End(2);
  }

  lemma Listing(a: Area, image: Disk, s: Sys, i: nat, op: Op, n: Uint)
    requires GroupCommit.Inv(a, image, s) && GroupCommit.Filled(a, s, i)
    requires GroupCommit.Enabled(a, image, s, GroupCommit.LogWrite(op, n, ZERO_BLOCK))
    ensures op in s.ops && (n in s.lh || s.ops[op] < MAXOPBLOCKS) && n < |s.view| && a.Home(n) && |s.lh| == i
  {
    hide GroupCommit.Inv;
  }

  lemma AllListed(a: Area, s: Sys)
    requires GroupCommit.Filled(a, s, LOGSIZE)
    ensures Ending(s, 0)
  {
  }

  lemma EndingFacts(s: Sys, j: nat)
    requires Ending(s, j) && j < 3
    ensures j in s.ops && s.outstanding == 3 - j && |s.lh| == LOGSIZE
  {
  }
}
