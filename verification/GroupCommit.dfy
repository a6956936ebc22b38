/**
 Many file-system operations over one log (log.c): begin_op, log_write and end_op in
 any interleaving, commits one block write at a time, and crashes at any point, also
 during recovery.

 `hist` is the sequence of log_writes that the system still remembers and `durable` how
 many of them a crash can no longer undo.
 */
module GroupCommit {
  import opened Basics
  import opened Blocks
  import opened BufferCache
  import opened LogCrash

  type Op = nat

  datatype Entry = Entry(op: Op, w: Write)

  datatype Phase =
    | Running
    | Committing(base: Disk, k: nat)    // k block writes of the commit that began on disk `base` are done
    | Recovering(base: Disk, k: nat)    // likewise for a recovery

  datatype Sys = Sys(
    disk: Disk,
    view: Disk,                // what the buffer cache shows
    lh: seq<Uint>,
    outstanding: nat,
    committing: bool,
    ops: map<Op, nat>,         // operations in progress, and the blocks each has added to the log
    used: set<Op>,             // operations that ever began
    phase: Phase,
    hist: seq<Entry>,
    durable: nat)

  datatype Step =
    | Begin(op: Op)
    | LogWrite(op: Op, n: Uint, data: Block)
    | End(op: Op)
    | CommitWrite
    | CommitEnd
    | Crash
    | RecoverWrite
    | RecoverEnd

  // ---------- the operations' own log space ----------

  function Left(spent: nat): nat {
    if spent <= MAXOPBLOCKS then MAXOPBLOCKS - spent else 0
  }

  ghost function Pick(ops: map<Op, nat>): (op: Op)
    requires ops != map[]
    ensures op in ops && |ops - {op}| == |ops| - 1
  {
    assert ops.Keys != {};
    var op :| op in ops;
    assert (ops - {op}).Keys == ops.Keys - {op};
    op
  }

  /** The log blocks that the operations in progress may still add. */
  ghost function Unspent(ops: map<Op, nat>): nat
    decreases |ops|
  {
    if ops == map[] then 0 else Left(ops[Pick(ops)]) + Unspent(ops - {Pick(ops)})
  }

  lemma {:induction false} UnspentWithout(ops: map<Op, nat>, x: Op)
    requires x in ops
    ensures |ops| > 0 && |ops - {x}| == |ops| - 1
    ensures Unspent(ops) == Left(ops[x]) + Unspent(ops - {x})
    decreases |ops|
  {
    hide Left;
    var op := Pick(ops);
    assert (ops - {x}).Keys == ops.Keys - {x};
    if op != x {
      UnspentWithout(ops - {op}, x);
      UnspentWithout(ops - {x}, op);
      assert ops - {op} - {x} == ops - {x} - {op};
    }
  }

  lemma UnspentAdded(ops: map<Op, nat>, x: Op, v: nat)
    requires x !in ops
    ensures |ops[x := v]| == |ops| + 1 && Unspent(ops[x := v]) == Unspent(ops) + Left(v)
  {
    hide Unspent;
    UnspentWithout(ops[x := v], x);
    assert ops[x := v] - {x} == ops;
  }

  lemma UnspentChanged(ops: map<Op, nat>, x: Op, v: nat)
    requires x in ops
    ensures |ops[x := v]| == |ops|
    ensures Unspent(ops[x := v]) + Left(ops[x]) == Unspent(ops) + Left(v)
  {
    hide Unspent;
    UnspentWithout(ops[x := v], x);
    UnspentWithout(ops, x);
    assert ops[x := v] - {x} == ops - {x};
  }

  lemma {:induction false} UnspentBound(ops: map<Op, nat>)
    ensures Unspent(ops) <= |ops| * MAXOPBLOCKS
    decreases |ops|
  {
    if ops != map[] {
      UnspentBound(ops - {Pick(ops)});
    }
  }

  // ---------- the state that log_writes describe ----------

  function Writes(hist: seq<Entry>): (ws: seq<Write>)
    ensures |ws| == |hist|
  {
    seq(|hist|, i requires 0 <= i < |hist| => hist[i].w)
  }

  ghost predicate InRange(a: Area, image: Disk, hist: seq<Entry>) {
    forall i :: 0 <= i < |hist| ==> hist[i].w.blockno < |image| && a.Home(hist[i].w.blockno)
  }

  /** The image with the log_writes of `hist` done. */
  ghost function State(a: Area, image: Disk, hist: seq<Entry>): (d: Disk)
    requires InRange(a, image, hist)
    ensures |d| == |image|
  {
    Apply(image, Writes(hist))
  }

  lemma StateNext(a: Area, image: Disk, hist: seq<Entry>, e: Entry)
    requires InRange(a, image, hist + [e]) && e.w.blockno < |image|
    ensures InRange(a, image, hist)
    ensures State(a, image, hist + [e]) == State(a, image, hist)[e.w.blockno := e.w.data]
  {
    assert forall i :: 0 <= i < |hist| ==> (hist + [e])[i] == hist[i];
    assert (hist + [e])[|hist|] == e;
    var ws := Writes(hist + [e]);
    assert ws[..|ws| - 1] == Writes(hist);
  }

  // ---------- the invariant ----------

  /** The operations in progress and the transaction so far fit in the log, whatever they still add. */
  ghost predicate Budget(s: Sys) {
    && s.outstanding == |s.ops| && |s.lh| + Unspent(s.ops) <= LOGSIZE
    && (forall op :: op in s.ops ==> s.ops[op] <= MAXOPBLOCKS)
  }

  /** No operation is durable in part, and none in progress is durable at all. */
  ghost predicate Whole(s: Sys) {
    && s.durable <= |s.hist|
    && (forall i, j :: 0 <= i < s.durable <= j < |s.hist| ==> s.hist[i].op != s.hist[j].op)
    && (forall i :: 0 <= i < s.durable ==> s.hist[i].op !in s.ops)
    && (forall i :: 0 <= i < |s.hist| ==> s.hist[i].op in s.used)
    && (forall op :: op in s.ops ==> op in s.used)
  }

  ghost predicate MemoryOk(a: Area, image: Disk, s: Sys)
    requires InRange(a, image, s.hist)
  {
    && a.Transaction(s.lh, s.view) && SameHome(a, s.view, State(a, image, s.hist))
    && (s.lh == [] ==> s.durable == |s.hist|)
  }

  ghost predicate PhaseOk(a: Area, image: Disk, s: Sys)
    requires InRange(a, image, s.hist) && s.durable <= |s.hist|
  {
    match s.phase
    case Running =>
      && MemoryOk(a, image, s) && !s.committing && CommitReady(a, s.disk, s.lh, s.view)
      && SameHome(a, s.disk, State(a, image, s.hist[..s.durable]))
    case Committing(base, k) =>
      && MemoryOk(a, image, s) && s.committing && s.ops == map[] && CommitReady(a, base, s.lh, s.view)
      && k <= |CommitWrites(a, s.lh, s.view)| && s.disk == Crashed(a, base, s.lh, s.view, k)
      && (if k <= |s.lh| then SameHome(a, base, State(a, image, s.hist[..s.durable]))
          else s.durable == |s.hist|)
    case Recovering(base, k) =>
      && s.ops == map[] && s.lh == [] && !s.committing && s.durable == |s.hist|
      && a.Readable(base) && k <= |RecoveryWrites(a, base)|
      && s.disk == Apply(base, RecoveryWrites(a, base)[..k])
      && SameHome(a, Recover(a, base), State(a, image, s.hist))
  }

  ghost predicate Inv(a: Area, image: Disk, s: Sys) {
    && a.Fits(image) && |s.disk| == |image| && |s.view| == |image|
    && InRange(a, image, s.hist) && Whole(s) && Budget(s) && PhaseOk(a, image, s)
  }

  // ---------- the steps ----------

  ghost predicate Enabled(a: Area, image: Disk, s: Sys, step: Step)
    requires Inv(a, image, s)
  {
    match step
    case Begin(op) =>
      !s.phase.Recovering? && op !in s.used && !MustWait(|s.lh|, s.outstanding, s.committing)
    case LogWrite(op, n, data) =>
      // each operation adds at most MAXOPBLOCKS blocks, all outside the log area
      && op in s.ops && !TooBig(|s.lh|, a.size)
      && a.Home(n) && n < |s.view| && (n in s.lh || s.ops[op] < MAXOPBLOCKS)
    case End(op) => op in s.ops
    case CommitWrite => s.phase.Committing? && s.phase.k < |CommitWrites(a, s.lh, s.view)|
    case CommitEnd => s.phase.Committing? && s.phase.k == |CommitWrites(a, s.lh, s.view)|
    case Crash => true
    case RecoverWrite => s.phase.Recovering? && s.phase.k < |RecoveryWrites(a, s.phase.base)|
    case RecoverEnd => s.phase.Recovering? && s.phase.k == |RecoveryWrites(a, s.phase.base)|
  }

  /** end_op: the last operation out starts the commit. */
  ghost function DoEnd(s: Sys, op: Op): (s': Sys)
    requires s.outstanding == |s.ops| && op in s.ops
  {
    UnspentWithout(s.ops, op);
    var out := s.outstanding - 1;
    if out == 0
    then s.(outstanding := out, ops := s.ops - {op}, committing := true, phase := Committing(s.disk, 0))
    else s.(outstanding := out, ops := s.ops - {op})
  }

  ghost function DoCommitWrite(a: Area, s: Sys): (s': Sys)
    requires s.phase.Committing? && a.Transaction(s.lh, s.view) && |s.disk| == |s.view|
    requires s.phase.k < |CommitWrites(a, s.lh, s.view)|
  {
    var w := CommitWrites(a, s.lh, s.view)[s.phase.k];
    s.(disk := s.disk[w.blockno := w.data], phase := Committing(s.phase.base, s.phase.k + 1),
       durable := if s.phase.k == |s.lh| then |s.hist| else s.durable)
  }

  ghost function DoRecoverWrite(a: Area, s: Sys): (s': Sys)
    requires s.phase.Recovering? && a.Readable(s.phase.base) && |s.disk| == |s.phase.base|
    requires s.phase.k < |RecoveryWrites(a, s.phase.base)|
  {
    var w := RecoveryWrites(a, s.phase.base)[s.phase.k];
    s.(disk := s.disk[w.blockno := w.data], phase := Recovering(s.phase.base, s.phase.k + 1))
  }

  ghost function Do(a: Area, image: Disk, s: Sys, step: Step): (s': Sys)
    requires Inv(a, image, s) && Enabled(a, image, s, step)
  {
    match step
    case Begin(op) =>
      s.(outstanding := s.outstanding + 1, ops := s.ops[op := 0], used := s.used + {op})
    case LogWrite(op, n, data) =>
      s.(lh := Logged(s.lh, n), view := s.view[n := data],
         ops := if n in s.lh then s.ops else s.ops[op := s.ops[op] + 1],
         hist := s.hist + [Entry(op, Write(n, data))])
    case End(op) => DoEnd(s, op)
    case CommitWrite => DoCommitWrite(a, s)
    case CommitEnd =>
      s.(lh := [], committing := false, view := s.disk, phase := Running)
    case Crash =>
      s.(lh := [], outstanding := 0, committing := false, ops := map[],
         phase := Recovering(s.disk, 0), hist := s.hist[..s.durable])
    case RecoverWrite => DoRecoverWrite(a, s)
    case RecoverEnd =>
      s.(view := s.disk, phase := Running)
  }

  // ---------- every step keeps the invariant ----------

  /** begin_op's check reserves the whole of the new operation's log space. */
  lemma BeginKeeps(a: Area, image: Disk, s: Sys, op: Op)
    requires Inv(a, image, s) && Enabled(a, image, s, Begin(op))
    ensures Inv(a, image, Do(a, image, s, Begin(op)))
  {
    hide Unspent, Apply, State, CommitWrites, RecoveryWrites, CommitReady, WithHeader;
    UnspentAdded(s.ops, op, 0);
    UnspentBound(s.ops);
  }

  lemma LogWriteBudget(s: Sys, op: Op, n: Uint)
    requires Budget(s) && op in s.ops && (n in s.lh || s.ops[op] < MAXOPBLOCKS)
    ensures Budget(s.(lh := Logged(s.lh, n), ops := if n in s.lh then s.ops else s.ops[op := s.ops[op] + 1]))
    ensures n !in s.lh ==> |s.lh| < LOGSIZE
  {
    UnspentWithout(s.ops, op);
    if n !in s.lh {
      UnspentChanged(s.ops, op, s.ops[op] + 1);
    }
  }

  lemma LogWriteTransaction(a: Area, lh: seq<Uint>, d: Disk, n: Uint)
    requires a.Transaction(lh, d) && a.Home(n) && n < |d| && !TooBig(|lh|, a.size)
    ensures a.Transaction(Logged(lh, n), d)
  {
  }

  lemma LogWriteReady(a: Area, d: Disk, lh: seq<Uint>, view: Disk, n: Uint, data: Block)
    requires CommitReady(a, d, lh, view) && a.Home(n) && n < |d| && !TooBig(|lh|, a.size)
    ensures CommitReady(a, d, Logged(lh, n), view[n := data])
  {
    LogWriteTransaction(a, lh, view, n);
    assert forall m :: m in lh ==> m in Logged(lh, n);
    assert n in Logged(lh, n);
  }

  /** A log_write moves one block from the operation's reserve to the transaction, or is absorbed. */
  lemma LogWriteKeeps(a: Area, image: Disk, s: Sys, op: Op, n: Uint, data: Block)
    requires Inv(a, image, s) && Enabled(a, image, s, LogWrite(op, n, data))
    ensures Inv(a, image, Do(a, image, s, LogWrite(op, n, data)))
  {
    hide Unspent, Apply, Header, Word, State;
    var s' := Do(a, image, s, LogWrite(op, n, data));
    LogWriteBudget(s, op, n);
    assert Budget(s');
    LogWriteReady(a, s.disk, s.lh, s.view, n, data);
    assert Whole(s');
    StateNext(a, image, s.hist, Entry(op, Write(n, data)));
    assert s'.hist[..s'.durable] == s.hist[..s.durable];
    assert s'.lh != [];
  }

  /** The last end_op starts a commit with no operation in progress. */
  lemma EndKeeps(a: Area, image: Disk, s: Sys, op: Op)
    requires Inv(a, image, s) && Enabled(a, image, s, End(op))
    ensures Inv(a, image, Do(a, image, s, End(op)))
  {
    hide Unspent, State, RecoveryWrites, WithHeader;
    UnspentWithout(s.ops, op);
  }

  /** One block write of a commit; the header write makes the whole transaction durable. */
  lemma CommitWriteKeeps(a: Area, image: Disk, s: Sys)
    requires Inv(a, image, s) && Enabled(a, image, s, CommitWrite)
    ensures Inv(a, image, Do(a, image, s, CommitWrite))
  {
    hide Apply, WithHeader, State, Header, Word, Unspent;
    var ws := CommitWrites(a, s.lh, s.view);
    CommitInRange(a, s.lh, s.view);
    ApplyNext(s.phase.base, ws, s.phase.k);
    var s' := Do(a, image, s, CommitWrite);
    assert s.hist[..|s.hist|] == s.hist;
    assert Whole(s');
  }

  lemma CommitInRange(a: Area, lh: seq<Uint>, view: Disk)
    requires a.Transaction(lh, view)
    ensures forall i :: 0 <= i < |CommitWrites(a, lh, view)| ==> CommitWrites(a, lh, view)[i].blockno < |view|
  {
  }

  /** A finished commit leaves the view on disk and an empty log. */
  lemma CommitEndKeeps(a: Area, image: Disk, s: Sys)
    requires Inv(a, image, s) && Enabled(a, image, s, CommitEnd)
    ensures Inv(a, image, Do(a, image, s, CommitEnd))
  {
    hide Apply, WithHeader, State, Word, Unspent, Header;
    var ws := CommitWrites(a, s.lh, s.view);
    assert ws[..|ws|] == ws;
    CommitDone(a, s.phase.base, s.lh, s.view);
    assert s.hist[..|s.hist|] == s.hist;
    HomeEqual(a, s.disk, s.view, State(a, image, s.hist));
  }

  lemma HomeEqual(a: Area, d: Disk, e: Disk, f: Disk)
    requires SameHome(a, d, e) && SameHome(a, e, f)
    ensures SameHome(a, d, f) && SameHome(a, e, d)
  {
  }

  /**
   In every state that satisfies the invariant, a crash followed by a recovery that runs
   to its end gives the home blocks with exactly the durable log_writes done.
   */
  lemma Durability(a: Area, image: Disk, s: Sys)
    requires Inv(a, image, s)
    ensures InRange(a, image, s.hist[..s.durable])
    ensures a.Readable(s.disk) && SameHome(a, Recover(a, s.disk), State(a, image, s.hist[..s.durable]))
  {
    hide Apply, WithHeader, State, Word, Unspent, Header;
    var goal := State(a, image, s.hist[..s.durable]);
    assert s.hist[..|s.hist|] == s.hist;
    match s.phase {
      case Running =>
        RecoverIdle(a, s.disk);
        HomeEqual(a, Recover(a, s.disk), s.disk, goal);
      case Committing(base, k) =>
        CrashAtomicity(a, base, s.lh, s.view, k, []);
        HomeEqual(a, Recover(a, s.disk), if k <= |s.lh| then base else s.view, goal);
      case Recovering(base, k) =>
        RecoveryCrash(a, base, k);
        HomeEqual(a, Recover(a, s.disk), Recover(a, base), goal);
    }
  }

  /** A crash forgets what is not durable and nothing else. */
  lemma CrashKeeps(a: Area, image: Disk, s: Sys)
    requires Inv(a, image, s)
    ensures Inv(a, image, Do(a, image, s, Crash))
  {
    hide Apply, WithHeader, State, Word, Header;
    Durability(a, image, s);
    ApplyNone(s.disk);
    assert RecoveryWrites(a, s.disk)[..0] == [];
  }

  lemma RecoverWriteKeeps(a: Area, image: Disk, s: Sys)
    requires Inv(a, image, s) && Enabled(a, image, s, RecoverWrite)
    ensures Inv(a, image, Do(a, image, s, RecoverWrite))
  {
    hide Apply, WithHeader, State, Word, Header, Unspent;
    ApplyNext(s.phase.base, RecoveryWrites(a, s.phase.base), s.phase.k);
  }

  /** A finished recovery shows the durable log_writes. */
  lemma RecoverEndKeeps(a: Area, image: Disk, s: Sys)
    requires Inv(a, image, s) && Enabled(a, image, s, RecoverEnd)
    ensures Inv(a, image, Do(a, image, s, RecoverEnd))
  {
    hide Apply, WithHeader, State, Word, Unspent, Header;
    var ws := RecoveryWrites(a, s.phase.base);
    assert ws[..|ws|] == ws;
    RecoverEmpties(a, s.phase.base);
    assert s.hist[..|s.hist|] == s.hist;
  }

  lemma StepKeeps(a: Area, image: Disk, s: Sys, step: Step)
    requires Inv(a, image, s) && Enabled(a, image, s, step)
    ensures Inv(a, image, Do(a, image, s, step))
  {
    hide Inv, Enabled, Do;
    match step {
      case Begin(op) => BeginKeeps(a, image, s, op);
      case LogWrite(op, n, data) => LogWriteKeeps(a, image, s, op, n, data);
      case End(op) => EndKeeps(a, image, s, op);
      case CommitWrite => CommitWriteKeeps(a, image, s);
      case CommitEnd => CommitEndKeeps(a, image, s);
      case Crash => CrashKeeps(a, image, s);
      case RecoverWrite => RecoverWriteKeeps(a, image, s);
      case RecoverEnd => RecoverEndKeeps(a, image, s);
    }
  }

  // ---------- whole runs ----------

  /** The machine boots on an image whose log is empty, and starts by recovering from it. */
  ghost function Boot(image: Disk): Sys {
    Sys(image, image, [], 0, false, map[], {}, Recovering(image, 0), [], 0)
  }

  lemma BootOk(a: Area, image: Disk)
    requires a.Readable(image) && Header(image[a.start]) == []
    ensures Inv(a, image, Boot(image))
  {
    RecoverIdle(a, image);
    ApplyNone(image);
    assert RecoveryWrites(a, image)[..0] == [] && Writes([]) == [];
  }

  /** The state after `steps`, if each of them was enabled when it was taken. */
  ghost function After(a: Area, image: Disk, steps: seq<Step>): (r: Option<Sys>)
    requires a.Readable(image) && Header(image[a.start]) == []
    ensures r.Some? ==> Inv(a, image, r.value)
  {
    BootOk(a, image);
    hide Inv, Enabled, Do, Boot;
    if steps == [] then Some(Boot(image))
    else
      var n := |steps| - 1;
      match After(a, image, steps[..n])
      case None => None
      case Some(s) =>
        if Enabled(a, image, s, steps[n]) then
          StepKeeps(a, image, s, steps[n]);
          Some(Do(a, image, s, steps[n]))
        else None
  }

  /** The log_writes that operation `op` did in a run. */
  function WritesOf(steps: seq<Step>, op: Op): seq<Write> {
    if steps == [] then []
    else
      var n := |steps| - 1;
      WritesOf(steps[..n], op)
      + if steps[n].LogWrite? && steps[n].op == op then [Write(steps[n].n, steps[n].data)] else []
  }

  /** The log_writes of operation `op` in a history. */
  function EntriesOf(hist: seq<Entry>, op: Op): seq<Write> {
    if hist == [] then []
    else
      var n := |hist| - 1;
      EntriesOf(hist[..n], op) + if hist[n].op == op then [hist[n].w] else []
  }

  lemma {:induction false} NoEntries(hist: seq<Entry>, op: Op)
    requires forall i :: 0 <= i < |hist| ==> hist[i].op != op
    ensures EntriesOf(hist, op) == []
  {
    if hist != [] {
      NoEntries(hist[..|hist| - 1], op);
    }
  }

  lemma {:induction false} SameEntries(hist: seq<Entry>, d: nat, op: Op)
    requires d <= |hist| && forall i :: d <= i < |hist| ==> hist[i].op != op
    ensures EntriesOf(hist[..d], op) == EntriesOf(hist, op)
  {
    if d == |hist| {
      assert hist[..d] == hist;
    } else {
      var n := |hist| - 1;
      SameEntries(hist[..n], d, op);
      assert hist[..n][..d] == hist[..d];
    }
  }

  /** The durable part of a history holds all of an operation or nothing of it. */
  lemma DurableWhole(s: Sys, op: Op)
    requires Whole(s)
    ensures EntriesOf(s.hist[..s.durable], op) == [] || EntriesOf(s.hist[..s.durable], op) == EntriesOf(s.hist, op)
    ensures op in s.ops ==> EntriesOf(s.hist[..s.durable], op) == []
  {
    if exists i :: 0 <= i < s.durable && s.hist[i].op == op {
      SameEntries(s.hist, s.durable, op);
    } else {
      NoEntries(s.hist[..s.durable], op);
    }
  }

  /** The history holds every log_write that an operation did, or none; all of them while it is in progress. */
  ghost predicate Accounted(s: Sys, steps: seq<Step>, op: Op) {
    && (EntriesOf(s.hist, op) == [] || EntriesOf(s.hist, op) == WritesOf(steps, op))
    && (op in s.ops ==> EntriesOf(s.hist, op) == WritesOf(steps, op))
    && (op !in s.used ==> WritesOf(steps, op) == [] && EntriesOf(s.hist, op) == [])
  }

  lemma AccountedWrite(s: Sys, s': Sys, steps: seq<Step>, step: Step, op: Op)
    requires step.LogWrite? && step.op in s.ops && Accounted(s, steps, op) && forall q :: q in s.ops ==> q in s.used
    requires s'.hist == s.hist + [Entry(step.op, Write(step.n, step.data))] && s'.used == s.used
    requires s'.ops.Keys == s.ops.Keys && s'.hist[..|s.hist|] == s.hist && (steps + [step])[..|steps|] == steps
    ensures Accounted(s', steps + [step], op)
  {
  }

  lemma AccountedStep(a: Area, image: Disk, s: Sys, steps: seq<Step>, step: Step, op: Op)
    requires Inv(a, image, s) && Enabled(a, image, s, step) && Accounted(s, steps, op)
    ensures Accounted(Do(a, image, s, step), steps + [step], op)
  {
    hide PhaseOk, Budget, CommitWrites, RecoveryWrites, TooBig;
    assert (steps + [step])[..|steps|] == steps;
    var s' := Do(a, image, s, step);
    if step.LogWrite? {
      assert s'.hist[..|s.hist|] == s.hist;
      AccountedWrite(s, s', steps, step, op);
    } else if step.Crash? {
      DurableWhole(s, op);
    } else {
      assert s'.hist == s.hist;
    }
  }

  lemma {:induction false} RunAccounts(a: Area, image: Disk, steps: seq<Step>, op: Op)
    requires a.Readable(image) && Header(image[a.start]) == []
    requires After(a, image, steps).Some?
    ensures Accounted(After(a, image, steps).value, steps, op)
  {
    hide Inv, Enabled, Do, Accounted;
    if steps == [] {
      BootAccounts(image, op);
    } else {
      var n := |steps| - 1;
      RunAccounts(a, image, steps[..n], op);
      AccountedStep(a, image, After(a, image, steps[..n]).value, steps[..n], steps[n], op);
      assert steps == steps[..n] + [steps[n]];
    }
  }

  lemma BootAccounts(image: Disk, op: Op)
    ensures Accounted(Boot(image), [], op)
  {
  }

  /**
   Group commit over every run, with crashes anywhere: the disk always recovers to the
   image with the durable log_writes done, in order; of every operation these are all the
   log_writes it ever did or none; an operation in progress has none among them; the
   transaction with everything the operations in progress may still add fits in the log;
   and a commit runs only when no operation is in progress.
   */
  lemma GroupCommit(a: Area, image: Disk, steps: seq<Step>)
    requires a.Readable(image) && Header(image[a.start]) == []
    requires After(a, image, steps).Some?
    ensures var s := After(a, image, steps).value;
            && InRange(a, image, s.hist[..s.durable]) && a.Readable(s.disk)
            && SameHome(a, Recover(a, s.disk), State(a, image, s.hist[..s.durable]))
            && (forall op :: EntriesOf(s.hist[..s.durable], op) == []
                             || EntriesOf(s.hist[..s.durable], op) == WritesOf(steps, op))
            && (forall op :: op in s.ops ==> EntriesOf(s.hist[..s.durable], op) == [])
            && |s.lh| + Unspent(s.ops) <= LOGSIZE
            && (s.committing ==> s.ops == map[]) && (forall op :: op in s.ops ==> !s.committing)
  {
    hide Apply, State, CommitWrites, RecoveryWrites, CommitReady, EntriesOf, WritesOf, Unspent;
    var s := After(a, image, steps).value;
    Durability(a, image, s);
    forall op
      ensures EntriesOf(s.hist[..s.durable], op) == []
              || EntriesOf(s.hist[..s.durable], op) == WritesOf(steps, op)
      ensures op in s.ops ==> EntriesOf(s.hist[..s.durable], op) == []
    {
      RunAccounts(a, image, steps, op);
      DurableWhole(s, op);
    }
  }

  /**
   Write-ahead: in every run, until the header of a transaction is on disk the home blocks
   on disk hold the durable log_writes and nothing of the transaction.
   */
  lemma WriteAhead(a: Area, image: Disk, steps: seq<Step>)
    requires a.Readable(image) && Header(image[a.start]) == []
    requires After(a, image, steps).Some?
    ensures var s := After(a, image, steps).value;
            && InRange(a, image, s.hist[..s.durable])
            && (s.phase.Running? || (s.phase.Committing? && s.phase.k <= |s.lh|) ==>
                  SameHome(a, s.disk, State(a, image, s.hist[..s.durable])))
  {
    HomesWait(a, image, After(a, image, steps).value);
  }

  lemma HomesWait(a: Area, image: Disk, s: Sys)
    requires Inv(a, image, s)
    ensures InRange(a, image, s.hist[..s.durable])
    ensures s.phase.Running? || (s.phase.Committing? && s.phase.k <= |s.lh|) ==>
              SameHome(a, s.disk, State(a, image, s.hist[..s.durable]))
  {
    hide Apply, WithHeader, State, Word, Unspent, Header, CommitReady, CommitWrites;
    if s.phase.Committing? && s.phase.k <= |s.lh| {
      CrashBeforeHeader(a, s.phase.base, s.lh, s.view, s.phase.k);
      HomeEqual(a, s.disk, s.phase.base, State(a, image, s.hist[..s.durable]));
    }
  }

  // ---------- when an operation may begin ----------

  /**
   In every reachable state an operation may begin exactly if no commit or recovery is running and the log
   has room for what is listed, ten blocks for each operation in progress, and ten for the new one.
   */
  lemma BeginExact(a: Area, image: Disk, steps: seq<Step>, op: Op)
    requires a.Readable(image) && Header(image[a.start]) == [] && After(a, image, steps).Some?
    ensures var s := After(a, image, steps).value;
            Enabled(a, image, s, Begin(op)) <==>
              s.phase.Running? && op !in s.used && |s.lh| + 10 * (|s.ops| + 1) <= 30
  {
    hide After, Header, MemoryOk, InRange, Whole, Unspent, CommitReady, CommitWrites, RecoveryWrites, SameHome, State;
  }

  /** Operation 0 is alone, and has logged the first `m` blocks after the log. */
  ghost predicate Alone(a: Area, s: Sys, m: nat) {
    && s.phase.Running? && !s.committing && s.outstanding == 1 && s.ops == map[0 := m] && s.used == {0}
    && |s.lh| == m && forall i :: 0 <= i < m ==> s.lh[i] == a.start + a.size + i
  }

  lemma AloneStart(a: Area, image: Disk) returns (steps: seq<Step>)
    requires a.Readable(image) && Header(image[a.start]) == []
    ensures After(a, image, steps).Some? && Alone(a, After(a, image, steps).value, 0)
  {
    hide Inv, After;
    steps := BootEnds(a, image);
    RunStep(a, image, steps, Begin(0));
    steps := steps + [Begin(0)];
  }

  lemma AloneStep(a: Area, image: Disk, s: Sys, m: nat)
    requires Inv(a, image, s) && Alone(a, s, m) && m + 1 < a.size && m < MAXOPBLOCKS
    requires a.start + a.size + m < |image| && |image| <= UINT_LIMIT
    ensures var step := LogWrite(0, a.start + a.size + m, ZERO_BLOCK);
            Enabled(a, image, s, step) && Alone(a, Do(a, image, s, step), m + 1)
  {
    hide PhaseOk, Budget, Whole, InRange;
    assert a.start + a.size + m !in s.lh;
  }

  lemma {:induction false} AloneRun(a: Area, image: Disk, m: nat) returns (steps: seq<Step>)
    requires a.Readable(image) && Header(image[a.start]) == []
    requires a.start + a.size + m <= |image| <= UINT_LIMIT && m < a.size && m <= MAXOPBLOCKS
    ensures After(a, image, steps).Some? && Alone(a, After(a, image, steps).value, m)
  {
    hide Inv, Enabled, Do, Alone, After, Header;
    if m == 0 {
      steps := AloneStart(a, image);
    } else {
      var before := AloneRun(a, image, m - 1);
      var step := LogWrite(0, a.start + a.size + (m - 1), ZERO_BLOCK);
      AloneStep(a, image, After(a, image, before).value, m - 1);
      RunStep(a, image, before, step);
      steps := before + [step];
    }
  }

  /** However much of its ten blocks the first operation has logged, a second one joins the transaction. */
  lemma SecondJoins(a: Area, image: Disk, m: nat) returns (steps: seq<Step>)
    requires a.Readable(image) && Header(image[a.start]) == []
    requires a.start + a.size + m <= |image| <= UINT_LIMIT && m < a.size && m <= MAXOPBLOCKS
    ensures After(a, image, steps).Some? && steps != [] && steps[|steps| - 1] == Begin(1)
    ensures var s := After(a, image, steps).value; s.phase.Running? && s.ops == map[0 := m, 1 := 0] && |s.lh| == m
  {
    hide Inv, After;
    var before := AloneRun(a, image, m);
    RunStep(a, image, before, Begin(1));
    steps := before + [Begin(1)];
  }

  // ---------- when log_write's guard fires ----------

  /**
   With more than LOGSIZE log blocks, a log_write within its operation's budget meets "too
   big a transaction" exactly when LOGSIZE blocks are listed.  Then every operation in
   progress has spent its budget, so the block is one that is listed already.
   */
  lemma GuardExact(a: Area, image: Disk, steps: seq<Step>, op: Op, n: Uint)
    requires a.Readable(image) && Header(image[a.start]) == [] && a.size > LOGSIZE
    requires After(a, image, steps).Some?
    requires var s := After(a, image, steps).value; op in s.ops && (n in s.lh || s.ops[op] < MAXOPBLOCKS)
    ensures var s := After(a, image, steps).value;
            && (TooBig(|s.lh|, a.size) <==> |s.lh| == 30)
            && (|s.lh| == 30 ==> n in s.lh && forall q :: q in s.ops ==> s.ops[q] == MAXOPBLOCKS)
  {
    hide Unspent, After, PhaseOk, Whole;
    var s := After(a, image, steps).value;
    forall q | q in s.ops ensures |s.lh| + Left(s.ops[q]) <= LOGSIZE {
      UnspentWithout(s.ops, q);
    }
  }

  /** So a block that is new, for an operation with log space left, never meets it. */
  lemma GuardQuiet(a: Area, image: Disk, steps: seq<Step>, op: Op)
    requires a.Readable(image) && Header(image[a.start]) == [] && a.size > LOGSIZE
    requires After(a, image, steps).Some?
    requires var s := After(a, image, steps).value; op in s.ops && s.ops[op] < MAXOPBLOCKS
    ensures !TooBig(|After(a, image, steps).value.lh|, a.size)
  {
    hide Unspent, After, PhaseOk, Whole;
    GuardExact(a, image, steps, op, 0);
  }

  function Spent(m: nat, op: Op): nat {
    if m <= op * MAXOPBLOCKS then 0
    else if m - op * MAXOPBLOCKS <= MAXOPBLOCKS then m - op * MAXOPBLOCKS
    else MAXOPBLOCKS
  }

  /** Three operations in progress that have together logged `m` different blocks. */
  ghost predicate Filled(a: Area, s: Sys, m: nat) {
    && s.phase.Running? && !s.committing && s.outstanding == 3
    && s.ops == map[0 := Spent(m, 0), 1 := Spent(m, 1), 2 := Spent(m, 2)]
    && |s.lh| == m && forall i :: 0 <= i < m ==> s.lh[i] == a.start + a.size + i
  }

  lemma RunStep(a: Area, image: Disk, steps: seq<Step>, step: Step)
    requires a.Readable(image) && Header(image[a.start]) == []
    requires After(a, image, steps).Some? && Enabled(a, image, After(a, image, steps).value, step)
    ensures After(a, image, steps + [step]) == Some(Do(a, image, After(a, image, steps).value, step))
  {
    hide Inv, Enabled, Do;
    assert (steps + [step])[..|steps|] == steps;
  }

  /** No operation has begun and nothing is listed. */
  ghost predicate Idle(s: Sys) {
    !s.committing && s.outstanding == 0 && s.ops == map[] && s.used == {} && s.lh == []
  }

  /** Recovery from an empty log is one write, of the header. */
  lemma BootWrites(a: Area, image: Disk)
    requires a.Readable(image) && Header(image[a.start]) == []
    ensures |RecoveryWrites(a, image)| == 1
  {
    hide RecoveryWrite, Header;
  }

  lemma BootFirst(a: Area, image: Disk)
    requires a.Readable(image) && Header(image[a.start]) == [] && Inv(a, image, Boot(image))
    ensures Enabled(a, image, Boot(image), RecoverWrite)
    ensures var s := Do(a, image, Boot(image), RecoverWrite); s.phase == Recovering(image, 1) && Idle(s)
  {
    BootWrites(a, image);
    hide Inv, RecoveryWrites, Header;
  }

  lemma BootSecond(a: Area, image: Disk, s: Sys)
    requires a.Readable(image) && Header(image[a.start]) == []
    requires Inv(a, image, s) && s.phase == Recovering(image, 1) && Idle(s)
    ensures Enabled(a, image, s, RecoverEnd)
    ensures var s' := Do(a, image, s, RecoverEnd); s'.phase.Running? && Idle(s')
  {
    BootWrites(a, image);
    hide Inv, RecoveryWrites, Header;
  }

  /** The system as recovery leaves it. */
  lemma BootEnds(a: Area, image: Disk) returns (steps: seq<Step>)
    requires a.Readable(image) && Header(image[a.start]) == []
    ensures After(a, image, steps).Some? && After(a, image, steps).value.phase.Running?
    ensures Idle(After(a, image, steps).value)
  {
    hide Inv, Enabled, Do, Boot, Idle, Header;
    BootOk(a, image);
    BootFirst(a, image);
    var first: seq<Step> := [];
    assert After(a, image, first) == Some(Boot(image));
    RunStep(a, image, first, RecoverWrite);
    var second := first + [RecoverWrite];
    BootSecond(a, image, After(a, image, second).value);
    RunStep(a, image, second, RecoverEnd);
    steps := second + [RecoverEnd];
  }

  lemma FillStart(a: Area, image: Disk) returns (steps: seq<Step>)
    requires a.Readable(image) && Header(image[a.start]) == []
    ensures After(a, image, steps).Some? && Filled(a, After(a, image, steps).value, 0)
  {
    hide Inv, After;
    steps := BootEnds(a, image);
    RunStep(a, image, steps, Begin(0));
    steps := steps + [Begin(0)];
    RunStep(a, image, steps, Begin(1));
    steps := steps + [Begin(1)];
    RunStep(a, image, steps, Begin(2));
    steps := steps + [Begin(2)];
  }

  lemma FillStep(a: Area, image: Disk, s: Sys, m: nat)
    requires Inv(a, image, s) && Filled(a, s, m) && m + 1 < a.size && m < LOGSIZE
    requires a.start + a.size + LOGSIZE <= |image| && |image| <= UINT_LIMIT
    ensures var step := LogWrite(m / MAXOPBLOCKS, a.start + a.size + m, ZERO_BLOCK);
            Enabled(a, image, s, step) && Filled(a, Do(a, image, s, step), m + 1)
  {
    hide Inv, Enabled, Spent;
    FillEnabled(a, image, s, m);
    SpentNext(m);
    assert a.start + a.size + m !in s.lh;
  }

  /** The next block is spent by the operation whose turn it is. */
  lemma SpentNext(m: nat)
    requires m < LOGSIZE
    ensures m / MAXOPBLOCKS == 0 || m / MAXOPBLOCKS == 1 || m / MAXOPBLOCKS == 2
    ensures forall op {:trigger Spent(m + 1, op)} :: 0 <= op < 3 ==>
              Spent(m + 1, op) == Spent(m, op) + if op == m / MAXOPBLOCKS then 1 else 0
  {
  }

  lemma FillEnabled(a: Area, image: Disk, s: Sys, m: nat)
    requires Inv(a, image, s) && Filled(a, s, m) && m + 1 < a.size && m < LOGSIZE
    requires a.start + a.size + LOGSIZE <= |image| && |image| <= UINT_LIMIT
    ensures Enabled(a, image, s, LogWrite(m / MAXOPBLOCKS, a.start + a.size + m, ZERO_BLOCK))
  {
    hide PhaseOk, Budget, Whole, InRange;
    var op := m / MAXOPBLOCKS;
    assert op == 0 || op == 1 || op == 2;
  }

  lemma {:induction false} Fill(a: Area, image: Disk, m: nat) returns (steps: seq<Step>)
    requires a.Readable(image) && Header(image[a.start]) == []
    requires a.start + a.size + LOGSIZE <= |image| && |image| <= UINT_LIMIT && m < a.size && m <= LOGSIZE
    ensures After(a, image, steps).Some? && Filled(a, After(a, image, steps).value, m)
  {
    hide Inv, Enabled, Do, Filled, After;
    if m == 0 {
      steps := FillStart(a, image);
    } else {
      var before := Fill(a, image, m - 1);
      steps := FillNext(a, image, before, m - 1);
    }
  }

  lemma FillNext(a: Area, image: Disk, before: seq<Step>, m: nat) returns (steps: seq<Step>)
    requires a.Readable(image) && Header(image[a.start]) == []
    requires a.start + a.size + LOGSIZE <= |image| && |image| <= UINT_LIMIT && m + 1 < a.size && m < LOGSIZE
    requires After(a, image, before).Some? && Filled(a, After(a, image, before).value, m)
    ensures After(a, image, steps).Some? && Filled(a, After(a, image, steps).value, m + 1)
  {
    hide Inv, Enabled, Do, Filled, After;
    var step := LogWrite(m / MAXOPBLOCKS, a.start + a.size + m, ZERO_BLOCK);
    FillStep(a, image, After(a, image, before).value, m);
    RunStep(a, image, before, step);
    steps := before + [step];
  }

  /** With no more log blocks than LOGSIZE, as mkfs lays the disk out, some run does meet it. */
  lemma GuardFires(a: Area, image: Disk) returns (steps: seq<Step>, op: Op)
    requires a.Readable(image) && Header(image[a.start]) == [] && a.size <= LOGSIZE
    requires a.start + a.size + LOGSIZE <= |image| && |image| <= UINT_LIMIT
    ensures After(a, image, steps).Some?
    ensures var s := After(a, image, steps).value;
            op in s.ops && s.ops[op] < MAXOPBLOCKS && TooBig(|s.lh|, a.size)
  {
    steps := Fill(a, image, a.size - 1);
    op := 2;
  }

  /**
   An absorbed block can meet it whatever the size of the log: the list is full, and the
   guard is tested before the list is searched.
   */
  lemma GuardAbsorbs(a: Area, image: Disk) returns (steps: seq<Step>, op: Op, n: Uint)
    requires a.Readable(image) && Header(image[a.start]) == [] && a.size > LOGSIZE
    requires a.start + a.size + LOGSIZE <= |image| && |image| <= UINT_LIMIT
    ensures After(a, image, steps).Some?
    ensures var s := After(a, image, steps).value;
            op in s.ops && s.ops[op] <= MAXOPBLOCKS && n in s.lh && TooBig(|s.lh|, a.size)
  {
    hide After, Inv;
    steps := Fill(a, image, LOGSIZE);
    op, n := 2, a.start + a.size;
    assert After(a, image, steps).value.lh[0] == n;
  }
}
