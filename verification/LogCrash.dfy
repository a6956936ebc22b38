/**
 The redo log on disk (log.c): what a commit and a recovery write, block by block, and
 what any crash among those writes leaves behind.

 The log area is the header block `start` followed by `size - 1` log blocks.  A crash
 keeps a prefix of the block writes of whatever was running, and recovery may crash as
 often as it likes.
 */
module LogCrash {
  import opened Basics
  import opened Blocks
  import opened BufferCache

  const LOGSIZE: nat := 30

  const MAXOPBLOCKS: nat := 10

  type Disk = seq<Block>

  /** The disk area of the log: header and `size - 1` log blocks. */
  datatype Area = Area(start: nat, size: nat) {
    predicate Home(n: nat) {
      n < start || n >= start + size
    }

    predicate Fits(d: Disk) {
      0 < size && start + size <= |d|
    }

    /** The block numbers of a transaction: home blocks, no block twice, as many as the log holds. */
    ghost predicate Transaction(lh: seq<Uint>, d: Disk) {
      && Fits(d) && |lh| <= LOGSIZE && |lh| < size
      && (forall i :: 0 <= i < |lh| ==> Home(lh[i]) && lh[i] < |d|)
      && (forall i, j :: 0 <= i < j < |lh| ==> lh[i] != lh[j])
    }

    /** The disk's own header describes a transaction. */
    ghost predicate Readable(d: Disk) {
      Fits(d) && Word(d[start], 0) <= LOGSIZE && Transaction(Header(d[start]), d)
    }
  }

  /** The block numbers that a header block lists. */
  function Header(h: Block): (lh: seq<Uint>)
    requires Word(h, 0) <= LOGSIZE
  {
    seq(Word(h, 0), i requires 0 <= i < Word(h, 0) => Word(h, 1 + i))
  }

  /** The first `k` block numbers of `lh` written into the header block. */
  function WithEntries(h: Block, lh: seq<Uint>, k: nat): (h': Block)
    requires k <= |lh| <= LOGSIZE
    ensures forall i: nat :: i < k ==> Word(h', 1 + i) == lh[i]
    ensures forall i: nat :: i < WORDS && (i == 0 || i > k) ==> Word(h', i) == Word(h, i)
  {
    if k == 0 then h else SetWord(WithEntries(h, lh, k - 1), k, lh[k - 1])
  }

  /** The header block after write_head: the words past the count keep what they held. */
  function WithHeader(h: Block, lh: seq<Uint>): (h': Block)
    requires |lh| <= LOGSIZE
    ensures Word(h', 0) == |lh| && Header(h') == lh && forall i: nat :: i < |lh| ==> Word(h', 1 + i) == lh[i]
  {
    WithEntries(SetWord(h, 0, |lh|), lh, |lh|)
  }

  /** begin_op's condition for sleeping: a commit is running or this operation might not fit. */
  predicate MustWait(n: nat, outstanding: nat, committing: bool) {
    committing || n + (outstanding + 1) * MAXOPBLOCKS > LOGSIZE
  }

  /** log_write's "too big a transaction". */
  predicate TooBig(n: nat, size: nat) {
    n >= LOGSIZE || n >= size - 1
  }

  /** The header's block numbers after a log_write; a block already listed is absorbed. */
  function Logged(lh: seq<Uint>, n: Uint): (lh': seq<Uint>) {
    if n in lh then lh else lh + [n]
  }

  /** The blocks that a transaction lists. */
  ghost function Blocknos(lh: seq<Uint>): set<nat> {
    set n | n in lh
  }

  lemma {:induction false} BlocknosSize(lh: seq<Uint>)
    ensures |Blocknos(lh)| <= |lh|
  {
    if lh != [] {
      var t := lh[..|lh| - 1];
      BlocknosSize(t);
      assert Blocknos(lh) == Blocknos(t) + {lh[|lh| - 1]};
    }
  }

  /** The disk after the block writes `ws`, in order. */
  function Apply(d: Disk, ws: seq<Write>): (d': Disk)
    requires forall i :: 0 <= i < |ws| ==> ws[i].blockno < |d|
    ensures |d'| == |d|
  {
    if ws == [] then d
    else
      var w := ws[|ws| - 1];
      Apply(d, ws[..|ws| - 1])[w.blockno := w.data]
  }

  /** write_log: log block i gets the cached contents of the i-th logged block. */
  function LogWrites(a: Area, lh: seq<Uint>, view: Disk): (ws: seq<Write>)
    requires a.Transaction(lh, view)
    ensures forall i :: 0 <= i < |ws| ==> ws[i].blockno < |view|
  {
    seq(|lh|, i requires 0 <= i < |lh| => Write(a.start + 1 + i, view[lh[i]]))
  }

  /** install_trans: the i-th logged block gets the contents of log block i. */
  function InstallWrites(a: Area, lh: seq<Uint>, d: Disk): (ws: seq<Write>)
    requires a.Transaction(lh, d)
    ensures forall i :: 0 <= i < |ws| ==> ws[i].blockno < |d|
  {
    seq(|lh|, i requires 0 <= i < |lh| => Write(lh[i], d[a.start + 1 + i]))
  }

  /**
   The i-th block write of a commit, given the cached view: the log blocks, the header,
   the home blocks, and the header again, emptied.
   */
  function CommitWrite(a: Area, lh: seq<Uint>, view: Disk, i: nat): (w: Write)
    requires a.Transaction(lh, view) && i < 2 * |lh| + 2
    ensures w.blockno < |view|
  {
    var n := |lh|;
    var h := WithHeader(view[a.start], lh);
    if i < n then Write(a.start + 1 + i, view[lh[i]])
    else if i == n then Write(a.start, h)
    else if i < 2 * n + 1 then Write(lh[i - n - 1], view[lh[i - n - 1]])
    else Write(a.start, WithHeader(h, []))
  }

  /** Every block write of a commit, in order. */
  function CommitWrites(a: Area, lh: seq<Uint>, view: Disk): (ws: seq<Write>)
    requires a.Transaction(lh, view)
  {
    if lh == [] then []
    else seq(2 * |lh| + 2, i requires 0 <= i < 2 * |lh| + 2 => CommitWrite(a, lh, view, i))
  }

  /** The i-th block write of a recovery: the logged blocks go home, then the header is emptied. */
  function RecoveryWrite(a: Area, d: Disk, i: nat): (w: Write)
    requires a.Readable(d) && i <= |Header(d[a.start])|
    ensures w.blockno < |d|
  {
    var lh := Header(d[a.start]);
    if i < |lh| then Write(lh[i], d[a.start + 1 + i]) else Write(a.start, WithHeader(d[a.start], []))
  }

  /** Every block write of recover_from_log, in order. */
  function RecoveryWrites(a: Area, d: Disk): (ws: seq<Write>)
    requires a.Readable(d)
  {
    var n := |Header(d[a.start])| + 1;
    seq(n, i requires 0 <= i < n => RecoveryWrite(a, d, i))
  }

  /** The disk once a recovery has run to its end. */
  function Recover(a: Area, d: Disk): (d': Disk)
    requires a.Readable(d)
  {
    Apply(d, RecoveryWrites(a, d))
  }

  /** The two disks agree on every block outside the log area. */
  ghost predicate SameHome(a: Area, d: Disk, e: Disk) {
    |d| == |e| && forall n :: 0 <= n < |d| && a.Home(n) ==> d[n] == e[n]
  }

  lemma ApplyNone(d: Disk)
    ensures Apply(d, []) == d
  {
  }

  lemma {:induction false} ApplyConcat(d: Disk, ws: seq<Write>, us: seq<Write>)
    requires forall i :: 0 <= i < |ws| ==> ws[i].blockno < |d|
    requires forall i :: 0 <= i < |us| ==> us[i].blockno < |d|
    ensures Apply(d, ws + us) == Apply(Apply(d, ws), us)
  {
    if us == [] {
      assert ws + us == ws;
    } else {
      var n := |us| - 1;
      ApplyConcat(d, ws, us[..n]);
      assert (ws + us)[..|ws + us| - 1] == ws + us[..n];
    }
  }

  lemma ApplyNext(d: Disk, ws: seq<Write>, k: nat)
    requires forall i :: 0 <= i < |ws| ==> ws[i].blockno < |d|
    requires k < |ws|
    ensures Apply(d, ws[..k + 1]) == Apply(d, ws[..k])[ws[k].blockno := ws[k].data]
  {
    assert ws[..k + 1][..k] == ws[..k];
  }

  /** A block that no write touches keeps its contents. */
  lemma {:induction false} ApplyUntouched(d: Disk, ws: seq<Write>, n: nat)
    requires forall i :: 0 <= i < |ws| ==> ws[i].blockno < |d|
    requires n < |d| && forall i :: 0 <= i < |ws| ==> ws[i].blockno != n
    ensures Apply(d, ws)[n] == d[n]
  {
    if ws != [] {
      ApplyUntouched(d, ws[..|ws| - 1], n);
    }
  }

  /** A block holds what the last write to it wrote. */
  lemma {:induction false} ApplyLast(d: Disk, ws: seq<Write>, k: nat)
    requires forall i :: 0 <= i < |ws| ==> ws[i].blockno < |d|
    requires k < |ws| && forall i :: k < i < |ws| ==> ws[i].blockno != ws[k].blockno
    ensures Apply(d, ws)[ws[k].blockno] == ws[k].data
  {
    if k < |ws| - 1 {
      ApplyLast(d, ws[..|ws| - 1], k);
    }
  }

  /** A finished recovery leaves a logged block with its logged contents. */
  lemma RecoverLogged(a: Area, d: Disk, i: nat)
    requires a.Readable(d) && i < |Header(d[a.start])|
    ensures Recover(a, d)[Header(d[a.start])[i]] == d[a.start + 1 + i]
  {
    var lh := Header(d[a.start]);
    var ws := RecoveryWrites(a, d);
    forall j | i < j < |ws| ensures ws[j].blockno != lh[i] {
      assert ws[j] == RecoveryWrite(a, d, j);
    }
    assert ws[i] == RecoveryWrite(a, d, i);
    ApplyLast(d, ws, i);
  }

  /** What a finished recovery leaves in home block `n`: its logged contents, if the header lists it. */
  lemma RecoverHome(a: Area, d: Disk, n: nat)
    requires a.Readable(d) && n < |d| && a.Home(n)
    ensures n !in Header(d[a.start]) ==> Recover(a, d)[n] == d[n]
    ensures forall i :: 0 <= i < |Header(d[a.start])| && Header(d[a.start])[i] == n ==>
              Recover(a, d)[n] == d[a.start + 1 + i]
  {
    var lh := Header(d[a.start]);
    if n !in lh {
      ApplyUntouched(d, RecoveryWrites(a, d), n);
    }
    forall i | 0 <= i < |lh| && lh[i] == n ensures Recover(a, d)[n] == d[a.start + 1 + i] {
      RecoverLogged(a, d, i);
    }
  }

  /** A finished recovery leaves an empty log. */
  lemma RecoverEmpties(a: Area, d: Disk)
    requires a.Readable(d)
    ensures a.Readable(Recover(a, d)) && Header(Recover(a, d)[a.start]) == []
  {
    var ws := RecoveryWrites(a, d);
    ApplyLast(d, ws, |ws| - 1);
  }

  /** A recovery that crashes after any number of its writes can be run again with the same outcome. */
  lemma RecoveryCrash(a: Area, d: Disk, k: nat)
    requires a.Readable(d) && k <= |RecoveryWrites(a, d)|
    ensures a.Readable(Apply(d, RecoveryWrites(a, d)[..k]))
    ensures SameHome(a, Recover(a, Apply(d, RecoveryWrites(a, d)[..k])), Recover(a, d))
  {
    var ws := RecoveryWrites(a, d);
    var d' := Apply(d, ws[..k]);
    var lh := Header(d[a.start]);
    if k == |ws| {
      assert ws[..k] == ws;
      RecoverEmpties(a, d);
      forall n | 0 <= n < |d| && a.Home(n) ensures Recover(a, d')[n] == Recover(a, d)[n] {
        RecoverHome(a, d', n);
      }
    } else {
      forall n | a.start <= n < a.start + a.size ensures d'[n] == d[n] {
        ApplyUntouched(d, ws[..k], n);
      }
      assert Header(d'[a.start]) == lh;
      forall n | 0 <= n < |d| && a.Home(n) ensures Recover(a, d')[n] == Recover(a, d)[n] {
        RecoverHome(a, d', n);
        RecoverHome(a, d, n);
        if n !in lh {
          ApplyUntouched(d, ws[..k], n);
        }
      }
    }
  }

  /** The disk after a series of recoveries, the i-th of which crashed after ks[i] of its writes. */
  ghost function Crashes(a: Area, d: Disk, ks: seq<nat>): (d': Disk)
    requires a.Readable(d)
    ensures a.Readable(d')
    decreases |ks|
  {
    if ks == [] then d
    else
      var ws := RecoveryWrites(a, d);
      var k := if ks[0] <= |ws| then ks[0] else |ws|;
      RecoveryCrash(a, d, k);
      Crashes(a, Apply(d, ws[..k]), ks[1..])
  }

  /** However often recovery crashes, the one that finishes gives the same home blocks. */
  lemma {:induction false} RepeatedCrashes(a: Area, d: Disk, ks: seq<nat>)
    requires a.Readable(d)
    ensures SameHome(a, Recover(a, Crashes(a, d, ks)), Recover(a, d))
    decreases |ks|
  {
    if ks != [] {
      var ws := RecoveryWrites(a, d);
      var k := if ks[0] <= |ws| then ks[0] else |ws|;
      RecoveryCrash(a, d, k);
      RepeatedCrashes(a, Apply(d, ws[..k]), ks[1..]);
    }
  }

  /** The disk that a commit leaves when it crashes after `k` of its block writes. */
  ghost function Crashed(a: Area, d: Disk, lh: seq<Uint>, view: Disk, k: nat): (d': Disk)
    requires a.Transaction(lh, view) && |d| == |view| && k <= |CommitWrites(a, lh, view)|
  {
    Apply(d, CommitWrites(a, lh, view)[..k])
  }

  /** Before a commit: an empty log on disk, and a view that differs from the home blocks only where logged. */
  ghost predicate CommitReady(a: Area, d: Disk, lh: seq<Uint>, view: Disk) {
    && a.Transaction(lh, view) && |d| == |view|
    && view[a.start] == d[a.start] && a.Readable(d) && Header(d[a.start]) == []
    && (forall n :: 0 <= n < |d| && a.Home(n) && n !in lh ==> view[n] == d[n])
  }

  /** No write of a commit touches a home block that is not logged. */
  lemma UnloggedBlock(a: Area, d: Disk, lh: seq<Uint>, view: Disk, k: nat, n: nat)
    requires CommitReady(a, d, lh, view) && k <= |CommitWrites(a, lh, view)|
    requires n < |d| && a.Home(n) && n !in lh
    ensures Crashed(a, d, lh, view, k)[n] == d[n] == view[n]
  {
    var ws := CommitWrites(a, lh, view);
    forall i | 0 <= i < |ws| ensures ws[i].blockno != n {
      assert ws[i] == CommitWrite(a, lh, view, i);
    }
    ApplyUntouched(d, ws[..k], n);
  }

  /** A commit that crashes before its header write has changed no home block. */
  lemma CrashBeforeHeader(a: Area, d: Disk, lh: seq<Uint>, view: Disk, k: nat)
    requires CommitReady(a, d, lh, view) && k <= |lh| && k <= |CommitWrites(a, lh, view)|
    ensures a.Readable(Crashed(a, d, lh, view, k))
    ensures SameHome(a, Crashed(a, d, lh, view, k), d)
    ensures SameHome(a, Recover(a, Crashed(a, d, lh, view, k)), d)
  {
    var ws := CommitWrites(a, lh, view);
    var d' := Crashed(a, d, lh, view, k);
    ApplyUntouched(d, ws[..k], a.start);
    forall n | 0 <= n < |d| && a.Home(n) ensures Recover(a, d')[n] == d[n] && d'[n] == d[n] {
      ApplyUntouched(d, ws[..k], n);
      RecoverHome(a, d', n);
    }
  }

  lemma CommitAt(a: Area, lh: seq<Uint>, view: Disk, k: nat, j: nat)
    requires a.Transaction(lh, view) && j < k <= |CommitWrites(a, lh, view)|
    ensures j < 2 * |lh| + 2 && CommitWrites(a, lh, view)[..k][j] == CommitWrite(a, lh, view, j)
  {
    hide CommitWrite;
  }

  /** The writes of a commit before the last one: log block i once, and the header once. */
  lemma CommitTargets(a: Area, lh: seq<Uint>, view: Disk, j: nat)
    requires a.Transaction(lh, view) && j < 2 * |lh| + 1
    ensures j < |lh| ==> CommitWrite(a, lh, view, j) == Write(a.start + 1 + j, view[lh[j]])
    ensures j == |lh| ==> CommitWrite(a, lh, view, j) == Write(a.start, WithHeader(view[a.start], lh))
    ensures j > |lh| ==>
              var n := lh[j - |lh| - 1]; a.Home(n) && CommitWrite(a, lh, view, j) == Write(n, view[n])
  {
    hide WithHeader;
  }

  lemma CommitErases(a: Area, lh: seq<Uint>, view: Disk)
    requires a.Transaction(lh, view)
    ensures CommitWrite(a, lh, view, 2 * |lh| + 1).blockno == a.start
  {
  }

  /** From the header write until the erasing one the log area holds the whole transaction. */
  lemma LogBlockStays(a: Area, d: Disk, lh: seq<Uint>, view: Disk, k: nat, i: nat)
    requires CommitReady(a, d, lh, view) && i < |lh| < k < |CommitWrites(a, lh, view)|
    ensures Crashed(a, d, lh, view, k)[a.start + 1 + i] == view[lh[i]]
  {
    hide WithHeader, Apply, CommitWrites, CommitWrite, Header;
    var ws := CommitWrites(a, lh, view)[..k];
    forall j | 0 <= j < |ws| ensures ws[j].blockno < |d| && (ws[j].blockno == a.start + 1 + i <==> i == j) {
      CommitAt(a, lh, view, k, j);
      CommitAt(a, lh, view, |CommitWrites(a, lh, view)|, j + 1);
      CommitTargets(a, lh, view, j);
    }
    CommitAt(a, lh, view, k, i);
    CommitTargets(a, lh, view, i);
    ApplyLast(d, ws, i);
  }

  lemma HeaderStays(a: Area, d: Disk, lh: seq<Uint>, view: Disk, k: nat)
    requires CommitReady(a, d, lh, view) && |lh| < k < |CommitWrites(a, lh, view)|
    ensures a.Readable(Crashed(a, d, lh, view, k))
    ensures Header(Crashed(a, d, lh, view, k)[a.start]) == lh
  {
    hide Apply, CommitWrites, CommitWrite;
    var ws := CommitWrites(a, lh, view)[..k];
    forall j | 0 <= j < |ws| ensures ws[j].blockno < |d| && (ws[j].blockno == a.start <==> j == |lh|) {
      CommitAt(a, lh, view, k, j);
      CommitAt(a, lh, view, |CommitWrites(a, lh, view)|, j + 1);
      CommitTargets(a, lh, view, j);
    }
    CommitAt(a, lh, view, k, |lh|);
    CommitTargets(a, lh, view, |lh|);
    ApplyLast(d, ws, |lh|);
  }

  /** A commit that crashes after its header write is completed by recovery. */
  lemma CrashAfterHeader(a: Area, d: Disk, lh: seq<Uint>, view: Disk, k: nat)
    requires CommitReady(a, d, lh, view) && |lh| < k < |CommitWrites(a, lh, view)|
    ensures a.Readable(Crashed(a, d, lh, view, k))
    ensures SameHome(a, Recover(a, Crashed(a, d, lh, view, k)), view)
  {
    var d' := Crashed(a, d, lh, view, k);
    HeaderStays(a, d, lh, view, k);
    forall n | 0 <= n < |d| && a.Home(n) ensures Recover(a, d')[n] == view[n] {
      if n in lh {
        var i :| 0 <= i < |lh| && lh[i] == n;
        LogBlockStays(a, d, lh, view, k, i);
        RecoverLogged(a, d', i);
      } else {
        UnloggedBlock(a, d, lh, view, k, n);
        RecoverHome(a, d', n);
      }
    }
  }

  lemma CommittedBlock(a: Area, d: Disk, lh: seq<Uint>, view: Disk, i: nat)
    requires CommitReady(a, d, lh, view) && i < |lh|
    ensures Apply(d, CommitWrites(a, lh, view))[lh[i]] == view[lh[i]]
  {
    var ws := CommitWrites(a, lh, view);
    var k := |lh| + 1 + i;
    forall j | 0 <= j < |ws| ensures ws[j].blockno < |d| && ws[j] == CommitWrite(a, lh, view, j) {
    }
    hide CommitWrites, WithHeader, CommitWrite, Apply, Header;
    forall j | k < j < |ws| ensures ws[j].blockno != lh[i] {
      if j < |ws| - 1 {
        CommitTargets(a, lh, view, j);
      } else {
        CommitErases(a, lh, view);
      }
    }
    CommitTargets(a, lh, view, k);
    ApplyLast(d, ws, k);
  }

  /** A commit that runs to its end leaves the view in the home blocks and an empty log. */
  lemma CommitDone(a: Area, d: Disk, lh: seq<Uint>, view: Disk)
    requires CommitReady(a, d, lh, view)
    ensures a.Readable(Apply(d, CommitWrites(a, lh, view)))
    ensures Header(Apply(d, CommitWrites(a, lh, view))[a.start]) == []
    ensures SameHome(a, Apply(d, CommitWrites(a, lh, view)), view)
  {
    var ws := CommitWrites(a, lh, view);
    if lh != [] {
      ApplyLast(d, ws, |ws| - 1);
      forall n | 0 <= n < |d| && a.Home(n) ensures Apply(d, ws)[n] == view[n] {
        if n in lh {
          var i :| 0 <= i < |lh| && lh[i] == n;
          CommittedBlock(a, d, lh, view, i);
        } else {
          assert ws[..|ws|] == ws;
          UnloggedBlock(a, d, lh, view, |ws|, n);
        }
      }
    }
  }

  /** Recovery has nothing to do when the log is empty. */
  lemma RecoverIdle(a: Area, d: Disk)
    requires a.Readable(d) && Header(d[a.start]) == []
    ensures SameHome(a, Recover(a, d), d)
  {
    forall n | 0 <= n < |d| && a.Home(n) ensures Recover(a, d)[n] == d[n] {
      RecoverHome(a, d, n);
    }
  }

  /**
   Crash atomicity.  Whatever prefix of a commit's writes reached the disk, and however
   often the recoveries after it crash, the recovery that finishes leaves the home blocks
   all new if the first header write reached the disk and all old if it did not.
   */
  lemma CrashAtomicity(a: Area, d: Disk, lh: seq<Uint>, view: Disk, k: nat, ks: seq<nat>)
    requires CommitReady(a, d, lh, view) && k <= |CommitWrites(a, lh, view)|
    ensures a.Readable(Crashed(a, d, lh, view, k))
    ensures SameHome(a, Recover(a, Crashes(a, Crashed(a, d, lh, view, k), ks)), if k <= |lh| then d else view)
  {
    if k <= |lh| {
      CrashBeforeHeader(a, d, lh, view, k);
    } else if k < |CommitWrites(a, lh, view)| {
      CrashAfterHeader(a, d, lh, view, k);
    } else {
      assert CommitWrites(a, lh, view)[..k] == CommitWrites(a, lh, view);
      CommitDone(a, d, lh, view);
      RecoverIdle(a, Crashed(a, d, lh, view, k));
    }
    RepeatedCrashes(a, Crashed(a, d, lh, view, k), ks);
  }
}
