/**
 The log's code (log.c) over the buffer cache: each method is shown to issue exactly the
 block writes that LogCrash describes, or to run the cache out of buffers, exactly when it does.
 */
module Log {
  import opened Basics
  import opened Blocks
  import opened BufferCache
  import opened LogCrash

  lemma NotDirty(buf: seq<Buf>, b: nat)
    requires b < |buf|
    ensures buf[b].dirty ==> buf[b].blockno in Dirty(buf)
  {
  }

  /** Whether bget finds a buffer for block `n`, in terms of the dirty blocks. */
  lemma Supply(buf: seq<Buf>, where: map<nat, nat>, view: seq<Block>, disk: seq<Block>, held: set<nat>, n: nat)
    requires Consistent(buf, where, view, disk)
    requires forall c: nat :: c < NBUF ==> buf[c].refcnt == if c in held then 1 else 0
    requires forall c :: c in held ==> c < NBUF && buf[c].blockno != n && !buf[c].dirty
    ensures |Dirty(buf)| + |held| <= NBUF
    ensures n !in where && (forall c :: 0 <= c < NBUF ==> !Recyclable(buf[c])) <==>
              n !in Dirty(buf) && |Dirty(buf)| + |held| == NBUF
  {
    Shortage(buf, where, view, disk, held);
    DirtyHeld(buf, where, view, disk);
    assert n in Dirty(buf) ==> n in where;
    hide Dirty;
    if n in where && forall c :: 0 <= c < NBUF ==> !Recyclable(buf[c]) {
      CachedDirty(buf, where, held, n);
    }
  }

  /** Nobody holds or waits for a buffer. */
  ghost predicate Quiet(buf: seq<Buf>) {
    forall b :: 0 <= b < |buf| ==> buf[b].refcnt == 0
  }

  /** With these blocks dirty, there are buffers for a log block and for block `home` at once. */
  ghost predicate CanCopy(dirty: set<nat>, home: nat) {
    |dirty| < NBUF && (home in dirty || |dirty| + 1 < NBUF)
  }

  /** There are, for every block of the list. */
  ghost predicate Room(dirty: set<nat>, lh: seq<Uint>) {
    forall i :: 0 <= i < |lh| ==> CanCopy(dirty, lh[i])
  }

  /** A transaction smaller than the cache has room. */
  lemma SmallFits(dirty: set<nat>, lh: seq<Uint>)
    requires dirty <= Blocknos(lh) && |lh| < NBUF
    ensures Room(dirty, lh) && |dirty| < NBUF
  {
    BlocknosSize(lh);
    SubsetSize(dirty, Blocknos(lh));
    forall i | 0 <= i < |lh| ensures CanCopy(dirty, lh[i]) {
      if lh[i] !in dirty {
        SubsetSize(dirty + {lh[i]}, Blocknos(lh));
      }
    }
  }

  /** One as large as the cache, with all of it pinned, has none. */
  lemma LargeStops(lh: seq<Uint>)
    requires forall i, j :: 0 <= i < j < |lh| ==> lh[i] != lh[j]
    ensures |Blocknos(lh)| == |lh|
    ensures Room(Blocknos(lh), lh) <==> |lh| < NBUF
  {
    ListedOnce(lh);
    if |lh| < NBUF {
      SmallFits(Blocknos(lh), lh);
    } else {
      assert !CanCopy(Blocknos(lh), lh[0]);
    }
  }

  lemma {:induction false} ListedOnce(lh: seq<Uint>)
    requires forall i, j :: 0 <= i < j < |lh| ==> lh[i] != lh[j]
    ensures |Blocknos(lh)| == |lh|
  {
    if lh != [] {
      var t, x := lh[..|lh| - 1], lh[|lh| - 1];
      assert lh == t + [x];
      ListedOnce(t);
      assert x !in t;
      assert Blocknos(lh) == Blocknos(t) + {x};
    }
  }

  /** After a copy home, whose block is dirty no longer, there is room for the next one. */
  lemma StillRoom(dirty: set<nat>, home: nat, next: nat)
    requires CanCopy(dirty, home)
    ensures CanCopy(dirty - {home}, next)
  {
    SubsetSize(dirty - {home}, dirty);
  }

  lemma NothingDirty(buf: seq<Buf>, lh: seq<Uint>)
    requires Dirty(buf) <= Blocknos(lh) && lh == []
    ensures Dirty(buf) == {}
  {
    assert Blocknos(lh) == {};
  }

  lemma TailBlocknos(lh: seq<Uint>, i: nat)
    requires i < |lh|
    ensures Blocknos(lh[i..]) <= Blocknos(lh)
    ensures Blocknos(lh[i..]) - {lh[i]} <= Blocknos(lh[i + 1..])
  {
    assert lh[i..] == [lh[i]] + lh[i + 1..];
  }

  lemma PrefixNext(view: Disk, disk: Disk, ws: seq<Write>, k: nat)
    requires |view| == |disk| && k < |ws| && forall i :: 0 <= i < |ws| ==> ws[i].blockno < |view|
    ensures Apply(view, ws[..k + 1]) == Apply(view, ws[..k])[ws[k].blockno := ws[k].data]
    ensures Apply(disk, ws[..k + 1]) == Apply(disk, ws[..k])[ws[k].blockno := ws[k].data]
    ensures ws[..k + 1] == ws[..k] + [ws[k]]
  {
    ApplyNext(view, ws, k);
    ApplyNext(disk, ws, k);
  }

  lemma LogReads(a: Area, lh: seq<Uint>, view: Disk, k: nat)
    requires a.Transaction(lh, view) && k < |lh|
    ensures Apply(view, LogWrites(a, lh, view)[..k])[lh[k]] == view[lh[k]]
  {
    ApplyUntouched(view, LogWrites(a, lh, view)[..k], lh[k]);
  }

  lemma InstallReads(a: Area, lh: seq<Uint>, view: Disk, k: nat)
    requires a.Transaction(lh, view) && k < |lh|
    ensures Apply(view, InstallWrites(a, lh, view)[..k])[a.start + 1 + k] == view[a.start + 1 + k]
  {
    ApplyUntouched(view, InstallWrites(a, lh, view)[..k], a.start + 1 + k);
  }

  /** The k-th copy of write_log and of install_trans: between two blocks of the disk, one in the log. */
  lemma CopyAt(a: Area, lh: seq<Uint>, view: Disk, k: nat)
    requires a.Transaction(lh, view) && k < |lh|
    ensures a.start + 1 + k < |view| && lh[k] < |view| && lh[k] != a.start + 1 + k && |lh| <= LOGSIZE
    ensures |LogWrites(a, lh, view)| == |lh| && LogWrites(a, lh, view)[k] == Write(a.start + 1 + k, view[lh[k]])
    ensures |InstallWrites(a, lh, view)| == |lh|
    ensures InstallWrites(a, lh, view)[k] == Write(lh[k], view[a.start + 1 + k])
  {
  }

  /** A log block is none of the listed ones, so it is not dirty. */
  lemma LogClean(a: Area, lh: seq<Uint>, view: Disk, dirty: set<nat>, k: nat)
    requires a.Transaction(lh, view) && dirty <= Blocknos(lh) && k < |lh|
    ensures a.start + 1 + k !in dirty && a.start !in dirty && dirty - {a.start + 1 + k} == dirty
  {
  }

  lemma TailClean(a: Area, lh: seq<Uint>, view: Disk, dirty: set<nat>, k: nat)
    requires a.Transaction(lh, view) && k < |lh| && dirty <= Blocknos(lh[k..])
    ensures a.start + 1 + k !in dirty
  {
    TailBlocknos(lh, k);
    LogClean(a, lh, view, dirty, k);
  }

  lemma CopySizes(a: Area, lh: seq<Uint>, view: Disk)
    requires a.Transaction(lh, view)
    ensures |LogWrites(a, lh, view)| == |lh| == |InstallWrites(a, lh, view)|
  {
  }

  /** The view after write_log, and the header write_head then composes. */
  lemma AfterLog(a: Area, lh: seq<Uint>, view: Disk)
    requires a.Transaction(lh, view)
    ensures Apply(view, LogWrites(a, lh, view))[a.start] == view[a.start]
    ensures forall i :: 0 <= i < |lh| ==> Apply(view, LogWrites(a, lh, view))[a.start + 1 + i] == view[lh[i]]
  {
    ApplyUntouched(view, LogWrites(a, lh, view), a.start);
    forall i | 0 <= i < |lh| ensures Apply(view, LogWrites(a, lh, view))[a.start + 1 + i] == view[lh[i]] {
      ApplyLast(view, LogWrites(a, lh, view), i);
    }
  }

  /** The four stages of a commit make up CommitWrites. */
  lemma CommitStages(a: Area, lh: seq<Uint>, view: Disk, h: Block, view1: Disk)
    requires a.Transaction(lh, view) && lh != []
    requires h == WithHeader(view[a.start], lh) && |view1| == |view|
    requires forall i :: 0 <= i < |lh| ==> view1[a.start + 1 + i] == view[lh[i]]
    ensures LogWrites(a, lh, view) + [Write(a.start, h)] + InstallWrites(a, lh, view1)
            + [Write(a.start, WithHeader(h, []))] == CommitWrites(a, lh, view)
  {
    hide WithHeader, LogWrites, InstallWrites, CommitWrites, CommitWrite, Area.Transaction;
    var ws := CommitWrites(a, lh, view);
    StagesSize(a, lh, view);
    SameBounds(a, lh, view, view1);
    CopySizes(a, lh, view);
    CopySizes(a, lh, view1);
    var us := LogWrites(a, lh, view) + [Write(a.start, h)] + InstallWrites(a, lh, view1)
              + [Write(a.start, WithHeader(h, []))];
    forall i | 0 <= i < |ws| ensures us[i] == ws[i] {
      StageAt(a, lh, view, view1, i);
      CommitAt(a, lh, view, |ws|, i);
    }
  }

  lemma StagesSize(a: Area, lh: seq<Uint>, view: Disk)
    requires a.Transaction(lh, view) && lh != []
    ensures |CommitWrites(a, lh, view)| == 2 * |lh| + 2 && a.Fits(view)
  {
  }

  lemma SameBounds(a: Area, lh: seq<Uint>, view: Disk, view1: Disk)
    requires a.Transaction(lh, view) && |view1| == |view|
    ensures a.Transaction(lh, view1)
  {
  }

  lemma StageAt(a: Area, lh: seq<Uint>, view: Disk, view1: Disk, i: nat)
    requires a.Transaction(lh, view) && i < 2 * |lh| + 2 && |view1| == |view|
    requires forall j :: 0 <= j < |lh| ==> view1[a.start + 1 + j] == view[lh[j]]
    ensures |LogWrites(a, lh, view)| == |lh| == |InstallWrites(a, lh, view1)|
    ensures var h := WithHeader(view[a.start], lh);
            CommitWrite(a, lh, view, i) == if i < |lh| then LogWrites(a, lh, view)[i]
                                           else if i == |lh| then Write(a.start, h)
                                           else if i < 2 * |lh| + 1 then InstallWrites(a, lh, view1)[i - |lh| - 1]
                                           else Write(a.start, WithHeader(h, []))
  {
    hide WithHeader;
  }

  lemma LogRoom(a: Area, lh: seq<Uint>, view: Disk)
    requires a.Transaction(lh, view)
    ensures a.Fits(view) && |lh| < a.size
  {
  }

  lemma RoomFor(dirty: set<nat>, lh: seq<Uint>)
    requires Room(dirty, lh) && lh != []
    ensures |dirty| < NBUF
  {
    assert CanCopy(dirty, lh[0]);
  }

  lemma UnloggedStart(a: Area, lh: seq<Uint>, view: Disk, dirty: set<nat>)
    requires a.Transaction(lh, view)
    ensures dirty <= Blocknos(lh) ==> dirty - {a.start} == dirty && a.start !in dirty
    ensures Blocknos(lh) - {a.start} == Blocknos(lh)
  {
  }

  lemma InstallKeepsHeader(a: Area, lh: seq<Uint>, view: Disk)
    requires a.Transaction(lh, view)
    ensures Apply(view, InstallWrites(a, lh, view))[a.start] == view[a.start]
  {
    ApplyUntouched(view, InstallWrites(a, lh, view), a.start);
  }

  lemma ApplyStages(d: Disk, l: seq<Write>, h: Write, i: seq<Write>, e: Write)
    requires forall k :: 0 <= k < |l| ==> l[k].blockno < |d|
    requires forall k :: 0 <= k < |i| ==> i[k].blockno < |d|
    requires h.blockno < |d| && e.blockno < |d|
    ensures Apply(d, l + [h] + i + [e])
         == Apply(Apply(d, l)[h.blockno := h.data], i)[e.blockno := e.data]
  {
    ApplyConcat(d, l, [h]);
    ApplyConcat(d, l + [h], i);
    ApplyConcat(d, l + [h] + i, [e]);
    ApplyOne(Apply(d, l), h);
    ApplyOne(Apply(d, l + [h] + i), e);
  }

  lemma ApplyOne(d: Disk, w: Write)
    requires w.blockno < |d|
    ensures Apply(d, [w]) == d[w.blockno := w.data]
  {
    assert [w][..0] == [];
  }

  /** The two stages of a recovery make up RecoveryWrites. */
  lemma RecoveryStages(a: Area, d: Disk)
    requires a.Readable(d)
    ensures RecoveryWrites(a, d)
         == InstallWrites(a, Header(d[a.start]), d) + [Write(a.start, WithHeader(d[a.start], []))]
    ensures Recover(a, d)
         == Apply(d, InstallWrites(a, Header(d[a.start]), d))[a.start := WithHeader(d[a.start], [])]
  {
    hide WithHeader;
    var i, e := InstallWrites(a, Header(d[a.start]), d), Write(a.start, WithHeader(d[a.start], []));
    var ws := RecoveryWrites(a, d);
    forall k | 0 <= k < |ws| ensures ws[k] == (i + [e])[k] {
      assert ws[k] == RecoveryWrite(a, d, k);
    }
    assert ws == i + [e];
    ApplyConcat(d, i, [e]);
    ApplyOne(Apply(d, i), e);
  }

  lemma CommitReadyView(a: Area, d: Disk, lh: seq<Uint>, view: Disk)
    requires CommitReady(a, d, lh, view)
    ensures CommitReady(a, view, lh, view)
  {
  }

  lemma DirtyAdded(buf: seq<Buf>, b: nat)
    requires b < |buf|
    ensures Dirty(buf[b := buf[b].(dirty := true)]) == Dirty(buf) + {buf[b].blockno}
  {
    var buf' := buf[b := buf[b].(dirty := true)];
    forall n | n in Dirty(buf) ensures n in Dirty(buf') {
      var c :| 0 <= c < |buf| && buf[c].dirty && buf[c].blockno == n;
      assert buf'[c].dirty && buf'[c].blockno == n;
    }
    assert buf'[b].dirty;
  }

  class Log {
    const bc: Bcache
    const area: Area
    var n: nat              // log.lh.n
    var block: seq<Uint>    // log.lh.block
    var outstanding: nat    // how many operations are in progress
    var committing: bool

    constructor (bc: Bcache, area: Area)
      ensures this.bc == bc && this.area == area && n == 0 && |block| == LOGSIZE
      ensures outstanding == 0 && !committing
    {
      this.bc, this.area, outstanding, committing := bc, area, 0, false;
      n, block := 0, seq(LOGSIZE, _ => 0);
    }

    ghost function Lh(): seq<Uint>
      requires n <= |block|
      reads this
    {
      block[..n]
    }

    ghost predicate Valid()
      reads this, bc
    {
      && bc.Valid() && Quiet(bc.buf)
      && |block| == LOGSIZE && n <= LOGSIZE && area.Transaction(Lh(), bc.view)
    }

    /** bread(log block) then bread(home block): both buffers locked, nothing written; or there is no buffer. */
    method ReadPair(log: nat, home: nat) returns (ok: bool, l: nat, h: nat)
      requires bc.Valid() && Quiet(bc.buf) && log != home && log < |bc.view| && home < |bc.view|
      requires log !in Dirty(bc.buf)
      modifies bc`buf, bc`where, bc`disk, bc`writes
      ensures bc.Valid() && bc.disk == old(bc.disk) && bc.writes == old(bc.writes)
      ensures ok <==> CanCopy(Dirty(old(bc.buf)), home)
      ensures Dirty(bc.buf) == Dirty(old(bc.buf))
      ensures ok ==> l < NBUF && h < NBUF && l != h
      ensures ok ==> forall b :: 0 <= b < NBUF ==>
                bc.buf[b].refcnt == if b == l || b == h then 1 else 0
      ensures ok ==>
                && bc.buf[l].valid && bc.buf[l].locked && bc.buf[l].blockno == log && bc.buf[l].data == bc.view[log]
                && bc.buf[h].valid && bc.buf[h].locked && bc.buf[h].blockno == home && bc.buf[h].data == bc.view[home]
                && (bc.buf[l].dirty || bc.buf[l].data == bc.disk[log])
                && (bc.buf[h].dirty || bc.buf[h].data == bc.disk[home])
    {
      hide Dirty, Linked, Permutation, Indexed;
      h := HEAD;
      l := Acquire(log, {});
      if l == HEAD {
        return false, l, h;
      }
      NotDirty(bc.buf, l);
      h := Acquire(home, {l});
      ok := h != HEAD;
    }

    /** bread, with no buffer in use but the clean ones `held`; HEAD is bget's panic. */
    method Acquire(blockno: nat, ghost held: set<nat>) returns (b: nat)
      requires bc.Valid() && blockno < |bc.view|
      requires forall c: nat :: c < NBUF ==> bc.buf[c].refcnt == if c in held then 1 else 0
      requires forall c :: c in held ==> c < NBUF && bc.buf[c].blockno != blockno && !bc.buf[c].dirty
      modifies bc`buf, bc`where, bc`disk, bc`writes
      ensures bc.Valid() && bc.disk == old(bc.disk) && bc.writes == old(bc.writes)
      ensures b <= HEAD && |Dirty(old(bc.buf))| + |held| <= NBUF
      ensures b == HEAD <==> blockno !in Dirty(old(bc.buf)) && |Dirty(old(bc.buf))| + |held| == NBUF
      ensures Dirty(bc.buf) == Dirty(old(bc.buf)) && (b == HEAD ==> bc.buf == old(bc.buf))
      ensures b < HEAD ==> b !in held && bc.buf == old(bc.buf)[b := bc.buf[b]]
      ensures b < HEAD ==> forall c: nat :: c < NBUF ==> bc.buf[c].refcnt == if c in held || c == b then 1 else 0
      ensures b < HEAD ==>
                && bc.buf[b].valid && bc.buf[b].locked
                && bc.buf[b].blockno == blockno && bc.buf[b].data == bc.view[blockno]
                && (bc.buf[b].dirty || bc.buf[b].data == bc.disk[blockno])
    {
      hide Dirty, Linked, Permutation;
      assert forall c :: 0 <= c < NBUF ==> BufOk(bc.buf[c], bc.view, bc.disk);
      Supply(bc.buf, bc.where, bc.view, bc.disk, held, blockno);
      ghost var buf := bc.buf;
      b := bc.Bread(blockno);
      if b != HEAD {
        DirtyKept(buf, b, bc.buf[b]);
      }
    }

    /** One round of write_log: the cached contents of `home` go to block `log`. */
    method CopyToLog(log: nat, home: nat) returns (ok: bool)
      requires bc.Valid() && Quiet(bc.buf) && log != home && log < |bc.view| && home < |bc.view|
      requires log !in Dirty(bc.buf)
      modifies bc
      ensures ok <==> CanCopy(Dirty(old(bc.buf)), home)
      ensures ok ==> bc.Valid() && Quiet(bc.buf)
      ensures ok ==> bc.view == old(bc.view)[log := old(bc.view)[home]]
      ensures ok ==> bc.disk == old(bc.disk)[log := old(bc.view)[home]]
      ensures ok ==> bc.writes == old(bc.writes) + [Write(log, old(bc.view)[home])]
      ensures ok ==> Dirty(bc.buf) == Dirty(old(bc.buf)) - {log}
      ensures !ok ==> bc.disk == old(bc.disk) && bc.writes == old(bc.writes)
    {
      var l, h;
      ok, l, h := ReadPair(log, home);
      if ok {
        Transfer(l, h);
      }
    }

    /** One round of install_trans: the contents of block `log` go to `home`. */
    method CopyHome(log: nat, home: nat) returns (ok: bool)
      requires bc.Valid() && Quiet(bc.buf) && log != home && log < |bc.view| && home < |bc.view|
      requires log !in Dirty(bc.buf)
      modifies bc
      ensures ok <==> CanCopy(Dirty(old(bc.buf)), home)
      ensures ok ==> bc.Valid() && Quiet(bc.buf)
      ensures ok ==> bc.view == old(bc.view)[home := old(bc.view)[log]]
      ensures ok ==> bc.disk == old(bc.disk)[home := old(bc.view)[log]]
      ensures ok ==> bc.writes == old(bc.writes) + [Write(home, old(bc.view)[log])]
      ensures ok ==> Dirty(bc.buf) == Dirty(old(bc.buf)) - {home}
      ensures !ok ==> bc.disk == old(bc.disk) && bc.writes == old(bc.writes)
    {
      var l, h;
      ok, l, h := ReadPair(log, home);
      if ok {
        Transfer(h, l);
      }
    }

    /** memmove of `r` to `w`, bwrite of `w`, then brelse of both. */
    method Transfer(w: nat, r: nat)
      requires bc.Valid() && w < NBUF && r < NBUF && w != r
      requires forall b :: 0 <= b < NBUF ==> bc.buf[b].refcnt == if b == w || b == r then 1 else 0
      requires bc.buf[w].valid && bc.buf[w].locked && bc.buf[r].valid && bc.buf[r].locked
      requires bc.buf[r].blockno < |bc.view| && bc.buf[r].data == bc.view[bc.buf[r].blockno]
      requires bc.buf[r].blockno < |bc.disk| && (bc.buf[r].dirty || bc.buf[r].data == bc.disk[bc.buf[r].blockno])
      requires bc.buf[r].blockno != bc.buf[w].blockno && bc.buf[w].blockno < |bc.view|
      modifies bc
      ensures bc.Valid() && Quiet(bc.buf)
      ensures bc.view == old(bc.view)[old(bc.buf)[w].blockno := old(bc.buf)[r].data]
      ensures bc.disk == old(bc.disk)[old(bc.buf)[w].blockno := old(bc.buf)[r].data]
      ensures bc.writes == old(bc.writes) + [Write(old(bc.buf)[w].blockno, old(bc.buf)[r].data)]
      ensures Dirty(bc.buf) == Dirty(old(bc.buf)) - {old(bc.buf)[w].blockno}
    {
      bc.SetData(w, bc.buf[r].data);
      DirtyKept(old(bc.buf), w, bc.buf[w]);
      WriteAndRelease(w, r);
    }

    /** bwrite of buffer `w`, then brelse of the untouched buffer `r` and of `w`. */
    method WriteAndRelease(w: nat, r: nat)
      requires bc.Valid() && w < NBUF && r < NBUF && w != r
      requires forall b :: 0 <= b < NBUF ==> bc.buf[b].refcnt == if b == w || b == r then 1 else 0
      requires bc.buf[w].valid && bc.buf[w].locked && bc.buf[r].valid && bc.buf[r].locked
      requires bc.buf[r].blockno < |bc.view| && bc.buf[r].data == bc.view[bc.buf[r].blockno]
      requires bc.buf[r].blockno < |bc.disk| && (bc.buf[r].dirty || bc.buf[r].data == bc.disk[bc.buf[r].blockno])
      requires bc.buf[r].blockno != bc.buf[w].blockno && bc.buf[w].blockno < |bc.view|
      modifies bc
      ensures bc.Valid() && Quiet(bc.buf)
      ensures bc.view == old(bc.view)[old(bc.buf)[w].blockno := old(bc.buf)[w].data]
      ensures bc.disk == old(bc.disk)[old(bc.buf)[w].blockno := old(bc.buf)[w].data]
      ensures bc.writes == old(bc.writes) + [Write(old(bc.buf)[w].blockno, old(bc.buf)[w].data)]
      ensures Dirty(bc.buf) == Dirty(old(bc.buf)) - {old(bc.buf)[w].blockno}
    {
      hide Dirty, Linked, Permutation, Indexed;
      DirtyCleared(bc.buf, bc.where, bc.view, bc.disk, w);
      bc.Bwrite(w);
      Release(r);
      Release(w);
    }

    /** brelse by the only user, with the set of dirty blocks unchanged. */
    method Release(b: nat)
      requires bc.Valid() && b < NBUF && bc.buf[b].locked && bc.buf[b].valid && bc.buf[b].refcnt == 1
      requires bc.buf[b].dirty || bc.disk[bc.buf[b].blockno] == bc.buf[b].data
      modifies bc`buf, bc`view, bc`prev, bc`next, bc`lru, bc`released
      ensures bc.Valid() && bc.buf == old(bc.buf)[b := old(bc.buf)[b].(locked := false, refcnt := 0)]
      ensures bc.buf[b].blockno < |old(bc.view)|
      ensures bc.view == old(bc.view)[bc.buf[b].blockno := bc.buf[b].data]
      ensures Dirty(bc.buf) == Dirty(old(bc.buf))
    {
      bc.Brelse(b);
      DirtyKept(old(bc.buf), b, bc.buf[b]);
    }

    /** The loop of write_head over the header block's words. */
    method FillHeader(h0: Block) returns (h: Block)
      requires |block| == LOGSIZE && n <= LOGSIZE
      ensures h == WithHeader(h0, Lh())
      ensures Word(h, 0) == n && forall i: nat :: i < n ==> Word(h, 1 + i) == block[i]
    {
      hide Word, SetWord, Header;
      h := SetWord(h0, 0, n);
      for i := 0 to n
        invariant h == WithEntries(SetWord(h0, 0, n), Lh(), i)
      {
        h := SetWord(h, 1 + i, block[i]);
      }
    }

    /** write_head: the in-memory header goes to the header block on disk. */
    method WriteHead()
      requires bc.Valid() && Quiet(bc.buf) && |block| == LOGSIZE && n <= LOGSIZE
      requires area.Fits(bc.view) && |Dirty(bc.buf)| < NBUF && area.start !in Dirty(bc.buf)
      modifies bc
      ensures bc.Valid() && Quiet(bc.buf)
      ensures var h := WithHeader(old(bc.view)[area.start], Lh());
              && bc.view == old(bc.view)[area.start := h] && bc.disk == old(bc.disk)[area.start := h]
              && bc.writes == old(bc.writes) + [Write(area.start, h)]
      ensures Dirty(bc.buf) == Dirty(old(bc.buf)) - {area.start}
    {
      var b := Acquire(area.start, {});
      var h := FillHeader(bc.buf[b].data);
      Store(b, h);
    }

    /** Change a held buffer, bwrite it and brelse it. */
    method Store(b: nat, data: Block)
      requires bc.Valid() && b < NBUF && bc.buf[b].locked && bc.buf[b].valid
      requires bc.buf[b].blockno < |bc.view|
      requires forall c :: 0 <= c < NBUF ==> bc.buf[c].refcnt == if c == b then 1 else 0
      modifies bc
      ensures bc.Valid() && Quiet(bc.buf)
      ensures bc.view == old(bc.view)[old(bc.buf)[b].blockno := data]
      ensures bc.disk == old(bc.disk)[old(bc.buf)[b].blockno := data]
      ensures bc.writes == old(bc.writes) + [Write(old(bc.buf)[b].blockno, data)]
      ensures Dirty(bc.buf) == Dirty(old(bc.buf)) - {old(bc.buf)[b].blockno}
    {
      hide Dirty, Linked, Permutation, Indexed;
      bc.SetData(b, data);
      DirtyKept(old(bc.buf), b, bc.buf[b]);
      DirtyCleared(bc.buf, bc.where, bc.view, bc.disk, b);
      bc.Bwrite(b);
      Release(b);
    }

    /** The view, the disk and the write history have all taken exactly the writes `ws`. */
    twostate predicate Took(ws: seq<Write>)
      reads bc
    {
      && |old(bc.view)| == |old(bc.disk)|
      && (forall i :: 0 <= i < |ws| ==> ws[i].blockno < |old(bc.view)|)
      && bc.view == Apply(old(bc.view), ws) && bc.disk == Apply(old(bc.disk), ws)
      && bc.writes == old(bc.writes) + ws
    }

    /** The disk and the write history have taken some of the writes `ws`, in their order. */
    twostate predicate Began(ws: seq<Write>)
      reads bc
    {
      && (forall i :: 0 <= i < |ws| ==> ws[i].blockno < |old(bc.disk)|)
      && exists k: nat :: k <= |ws| && bc.disk == Apply(old(bc.disk), ws[..k]) && bc.writes == old(bc.writes) + ws[..k]
    }

    /** write_log: the cached contents of the logged blocks go to the log, while there are buffers. */
    method WriteLog() returns (ok: bool)
      requires Valid() && Dirty(bc.buf) <= Blocknos(Lh()) && |bc.view| == |bc.disk|
      modifies bc
      ensures ok <==> Room(Dirty(old(bc.buf)), Lh())
      ensures ok ==> bc.Valid() && Quiet(bc.buf) && Dirty(bc.buf) == Dirty(old(bc.buf))
      ensures ok ==> Took(LogWrites(area, Lh(), old(bc.view)))
      ensures !ok ==> Began(LogWrites(area, Lh(), old(bc.view)))
    {
      hide Bcache.Valid, Dirty, Blocknos, Quiet, Apply, LogWrites, Area.Transaction, CanCopy;
      CopySizes(area, Lh(), bc.view);
      ghost var ws := LogWrites(area, Lh(), bc.view);
      ApplyNone(bc.view);
      ApplyNone(bc.disk);
      assert ws[..0] == [];
      for tail := 0 to n
        invariant bc.Valid() && Quiet(bc.buf) && Dirty(bc.buf) == Dirty(old(bc.buf))
        invariant Took(ws[..tail]) && forall i :: 0 <= i < tail ==> CanCopy(Dirty(bc.buf), Lh()[i])
      {
        assert block[tail] == Lh()[tail];
        LogReads(area, Lh(), old(bc.view), tail);
        CopyAt(area, Lh(), old(bc.view), tail);
        LogClean(area, Lh(), old(bc.view), Dirty(bc.buf), tail);
        ok := CopyToLog(area.start + tail + 1, block[tail]);
        if !ok {
          return;
        }
        PrefixNext(old(bc.view), old(bc.disk), ws, tail);
      }
      assert ws[..n] == ws;
      ok := true;
    }

    /** install_trans: log block i goes to the home location of the i-th logged block, which is unpinned. */
    method InstallTrans() returns (ok: bool)
      requires bc.Valid() && Quiet(bc.buf) && |block| == LOGSIZE && n <= LOGSIZE
      requires area.Transaction(Lh(), bc.view) && Dirty(bc.buf) <= Blocknos(Lh()) && |bc.view| == |bc.disk|
      modifies bc
      ensures ok <==> n == 0 || CanCopy(Dirty(old(bc.buf)), Lh()[0])
      ensures ok ==> bc.Valid() && Quiet(bc.buf) && Dirty(bc.buf) == {}
      ensures ok ==> Took(InstallWrites(area, Lh(), old(bc.view)))
      ensures !ok ==> bc.disk == old(bc.disk) && bc.writes == old(bc.writes)
    {
      hide Bcache.Valid, Dirty, Blocknos, Quiet, Apply, InstallWrites, Area.Transaction, CanCopy;
      CopySizes(area, Lh(), bc.view);
      ghost var ws := InstallWrites(area, Lh(), bc.view);
      ApplyNone(bc.view);
      ApplyNone(bc.disk);
      assert ws[..0] == [];
      assert Lh()[0..] == Lh();
      for tail := 0 to n
        invariant bc.Valid() && Quiet(bc.buf) && Dirty(bc.buf) <= Blocknos(Lh()[tail..])
        invariant tail == 0 ==> Dirty(bc.buf) == Dirty(old(bc.buf))
        invariant tail > 0 ==> CanCopy(Dirty(old(bc.buf)), Lh()[0]) && forall m :: CanCopy(Dirty(bc.buf), m)
        invariant Took(ws[..tail])
      {
        InstallReads(area, Lh(), old(bc.view), tail);
        CopyAt(area, Lh(), old(bc.view), tail);
        TailClean(area, Lh(), old(bc.view), Dirty(bc.buf), tail);
        ok := InstallOne(tail);
        if !ok {
          return;
        }
        PrefixNext(old(bc.view), old(bc.disk), ws, tail);
      }
      NothingDirty(bc.buf, Lh()[n..]);
      assert ws[..n] == ws;
      ok := true;
    }

    /** One round of install_trans's loop. */
    method InstallOne(tail: nat) returns (ok: bool)
      requires bc.Valid() && Quiet(bc.buf) && |block| == LOGSIZE && tail < n <= LOGSIZE
      requires Dirty(bc.buf) <= Blocknos(Lh()[tail..]) && area.start + tail + 1 !in Dirty(bc.buf)
      requires area.start + tail + 1 < |bc.view| && Lh()[tail] < |bc.view| && Lh()[tail] != area.start + tail + 1
      modifies bc
      ensures ok <==> CanCopy(Dirty(old(bc.buf)), Lh()[tail])
      ensures ok ==> bc.Valid() && Quiet(bc.buf) && |old(bc.disk)| == |old(bc.view)|
      ensures ok ==> Dirty(bc.buf) <= Blocknos(Lh()[tail + 1..]) && forall m :: CanCopy(Dirty(bc.buf), m)
      ensures ok ==> var data := old(bc.view)[area.start + tail + 1];
              && bc.view == old(bc.view)[Lh()[tail] := data] && bc.disk == old(bc.disk)[Lh()[tail] := data]
              && bc.writes == old(bc.writes) + [Write(Lh()[tail], data)]
      ensures !ok ==> bc.disk == old(bc.disk) && bc.writes == old(bc.writes)
    {
      hide Dirty, Blocknos, Quiet, Linked, Permutation, Indexed, BufOk, CanCopy;
      assert block[tail] == Lh()[tail];
      TailBlocknos(Lh(), tail);
      ghost var dirty := Dirty(bc.buf);
      ok := CopyHome(area.start + tail + 1, block[tail]);
      if ok {
        forall m ensures CanCopy(Dirty(bc.buf), m) {
          StillRoom(dirty, Lh()[tail], m);
        }
      }
    }

    /**
     commit: the block writes are exactly CommitWrites, in that order; the view of the
     home blocks does not change, every home block on disk agrees with it, and every pin
     is gone.  It fails exactly if the cache has no buffers left for the copies to the log, and
     then before the header is written.
     */
    method Commit() returns (ok: bool)
      requires Valid() && Dirty(bc.buf) <= Blocknos(Lh()) && CommitReady(area, bc.disk, Lh(), bc.view)
      modifies this`n, bc
      ensures ok <==> Room(Dirty(old(bc.buf)), old(Lh()))
      ensures ok ==> Valid() && n == 0 && Dirty(bc.buf) == {}
      ensures ok ==> Took(CommitWrites(area, old(Lh()), old(bc.view)))
      ensures ok ==> SameHome(area, bc.disk, old(bc.view)) && SameHome(area, bc.view, old(bc.view))
      ensures ok ==> area.Readable(bc.disk) && Header(bc.disk[area.start]) == []
      ensures !ok ==> n == old(n) && Began(LogWrites(area, Lh(), old(bc.view)))
    {
      hide WithHeader, Apply, Bcache.Valid, Quiet, Dirty, Blocknos, LogWrites, CanCopy;
      ghost var lh, view := Lh(), bc.view;
      CommitDone(area, bc.disk, lh, view);
      CommitReadyView(area, bc.disk, lh, view);
      CommitDone(area, view, lh, view);
      if n > 0 {
        ok := RunCommit();
      } else {
        NothingDirty(bc.buf, lh);
        ApplyNone(bc.view);
        ApplyNone(bc.disk);
        ok := true;
      }
    }

    /** The body of commit for a transaction that is not empty. */
    method RunCommit() returns (ok: bool)
      requires Valid() && Dirty(bc.buf) <= Blocknos(Lh()) && 0 < n && |bc.view| == |bc.disk|
      modifies this`n, bc
      ensures ok <==> Room(Dirty(old(bc.buf)), old(Lh()))
      ensures ok ==> bc.Valid() && Quiet(bc.buf) && n == 0 && Dirty(bc.buf) == {}
      ensures ok ==> Took(CommitWrites(area, old(Lh()), old(bc.view)))
      ensures !ok ==> n == old(n) && Began(LogWrites(area, Lh(), old(bc.view)))
    {
      hide WithHeader, Apply, Bcache.Valid, Quiet, Dirty, Blocknos, CommitWrites, LogWrites, InstallWrites, Room;
      ghost var lh, view, disk := Lh(), bc.view, bc.disk;
      ghost var h, l := WithHeader(view[area.start], lh), LogWrites(area, lh, view);
      ok := LogAll();
      if !ok {
        return;
      }
      ghost var view1 := bc.view;
      InstallAll();
      ghost var i := InstallWrites(area, lh, view1);
      CommitStages(area, lh, view, h, view1);
      ApplyStages(view, l, Write(area.start, h), i, Write(area.start, WithHeader(h, [])));
      ApplyStages(disk, l, Write(area.start, h), i, Write(area.start, WithHeader(h, [])));
    }

    /** The first half of commit, up to the write of the header that commits. */
    method LogAll() returns (ok: bool)
      requires Valid() && Dirty(bc.buf) <= Blocknos(Lh()) && 0 < n && |bc.view| == |bc.disk|
      modifies bc
      ensures ok <==> Room(Dirty(old(bc.buf)), Lh())
      ensures ok ==> bc.Valid() && Quiet(bc.buf) && Dirty(bc.buf) == Dirty(old(bc.buf))
      ensures ok ==> |bc.view| == |bc.disk| == |old(bc.view)|
      ensures ok ==> var h, l := WithHeader(old(bc.view)[area.start], Lh()), LogWrites(area, Lh(), old(bc.view));
              && bc.view == Apply(old(bc.view), l)[area.start := h]
              && bc.disk == Apply(old(bc.disk), l)[area.start := h]
              && bc.writes == old(bc.writes) + l + [Write(area.start, h)]
      ensures ok ==> forall i :: 0 <= i < n ==> bc.view[area.start + 1 + i] == old(bc.view)[Lh()[i]]
      ensures !ok ==> Began(LogWrites(area, Lh(), old(bc.view)))
    {
      hide WithHeader, Apply, Bcache.Valid, Quiet, Dirty, Blocknos, LogWrites, Area.Transaction, Room;
      ghost var lh, view, dirty := Lh(), bc.view, Dirty(bc.buf);
      LogRoom(area, lh, view);
      AfterLog(area, lh, view);
      ok := WriteLog();
      if !ok {
        return;
      }
      RoomFor(dirty, lh);
      UnloggedStart(area, lh, view, dirty);
      WriteHead();
    }

    /** The second half: the installation, and the write of the header that ends the transaction. */
    method InstallAll()
      requires bc.Valid() && Quiet(bc.buf) && |block| == LOGSIZE && 0 < n <= LOGSIZE
      requires area.Transaction(Lh(), bc.view) && Dirty(bc.buf) <= Blocknos(Lh()) && |bc.view| == |bc.disk|
      requires Room(Dirty(bc.buf), Lh())
      modifies this`n, bc
      ensures bc.Valid() && Quiet(bc.buf) && n == 0 && Dirty(bc.buf) == {}
      ensures var h, i := WithHeader(old(bc.view)[area.start], []), InstallWrites(area, old(Lh()), old(bc.view));
              && bc.view == Apply(old(bc.view), i)[area.start := h]
              && bc.disk == Apply(old(bc.disk), i)[area.start := h]
              && bc.writes == old(bc.writes) + i + [Write(area.start, h)]
    {
      hide WithHeader, Apply, Bcache.Valid, Quiet, Dirty, Blocknos, InstallWrites, CanCopy;
      ghost var lh, view := Lh(), bc.view;
      var ok := InstallTrans();
      n := 0;
      InstallKeepsHeader(area, lh, view);
      WriteHead();
    }

    /** read_head: the header on disk becomes the in-memory header. */
    method ReadHead()
      requires bc.Valid() && Quiet(bc.buf) && |block| == LOGSIZE && Dirty(bc.buf) == {}
      requires area.Readable(bc.view)
      modifies this`n, this`block, bc
      ensures bc.Valid() && Quiet(bc.buf) && Dirty(bc.buf) == {}
      ensures bc.view == old(bc.view) && bc.disk == old(bc.disk) && bc.writes == old(bc.writes)
      ensures |block| == LOGSIZE && n <= LOGSIZE && Lh() == Header(bc.view[area.start])
    {
      var b := Acquire(area.start, {});
      var h := bc.buf[b].data;
      Release(b);
      CopyHeader(h);
    }

    /** The loop of read_head over the header block's words. */
    method CopyHeader(h: Block)
      requires |block| == LOGSIZE && Word(h, 0) <= LOGSIZE
      modifies this`n, this`block
      ensures |block| == LOGSIZE && n <= LOGSIZE && Lh() == Header(h)
    {
      n := Word(h, 0);
      for i := 0 to n
        invariant n == Word(h, 0) && |block| == LOGSIZE
        invariant forall j :: 0 <= j < i ==> block[j] == Word(h, 1 + j)
      {
        block := block[i := Word(h, 1 + i)];
      }
    }

    /**
     recover_from_log, on a clean cache: the block writes are exactly RecoveryWrites, and
     the disk and the view both become the recovered disk.
     */
    method RecoverFromLog()
      requires bc.Valid() && Quiet(bc.buf) && |block| == LOGSIZE && Dirty(bc.buf) == {}
      requires bc.view == bc.disk && area.Readable(bc.disk)
      modifies this`n, this`block, bc
      ensures Valid() && n == 0 && Dirty(bc.buf) == {}
      ensures Took(RecoveryWrites(area, old(bc.disk)))
      ensures bc.view == bc.disk == Recover(area, old(bc.disk))
    {
      hide WithHeader, Apply, Bcache.Valid, Quiet, Dirty, Blocknos;
      ghost var d := bc.disk;
      ReadHead();
      ghost var i := InstallWrites(area, Lh(), d);
      InstallKeepsHeader(area, Lh(), d);
      var ok := InstallTrans();
      n := 0;
      WriteHead();
      RecoveryStages(area, d);
    }

    /** One pass of begin_op's loop: enter, or report that the caller must sleep. */
    method BeginOp() returns (entered: bool)
      modifies this`outstanding
      ensures entered <==> !committing && n + (old(outstanding) + 1) * 10 <= 30
      ensures outstanding == old(outstanding) + if entered then 1 else 0
    {
      entered := false;
      if committing {
      } else if n + (outstanding + 1) * MAXOPBLOCKS > LOGSIZE {
      } else {
        outstanding := outstanding + 1;
        entered := true;
      }
    }

    /** end_op up to its commit: the last operation out starts one. */
    method EndOp() returns (ok: bool, doCommit: bool)
      requires outstanding > 0
      modifies this`outstanding, this`committing
      ensures outstanding == old(outstanding) - 1 && ok == !old(committing)
      ensures ok ==> doCommit == committing == (outstanding == 0)
    {
      doCommit := false;
      outstanding := outstanding - 1;
      if committing {
        return false, false;
      }
      if outstanding == 0 {
        doCommit := true;
        committing := true;
      }
      ok := true;
    }

    /** log_write of a held buffer: list its block, once, and pin the buffer. */
    method LogWrite(b: nat) returns (ok: bool)
      requires bc.Valid() && |block| == LOGSIZE && n <= LOGSIZE
      requires b < NBUF && bc.buf[b].locked && bc.buf[b].valid && bc.buf[b].blockno < UINT_LIMIT
      modifies this`n, this`block, bc`buf
      ensures bc.Valid() && |block| == LOGSIZE && n <= LOGSIZE
      ensures ok <==> old(n) < 30 && old(n) + 1 < area.size && outstanding >= 1
      ensures ok ==> var m := bc.buf[b].blockno;
                     && Lh() == (if m in old(Lh()) then old(Lh()) else old(Lh()) + [m])
                     && bc.buf == old(bc.buf)[b := old(bc.buf)[b].(dirty := true)]
      ensures !ok ==> Lh() == old(Lh()) && bc.buf == old(bc.buf)
    {
      if n >= LOGSIZE || n >= area.size - 1 || outstanding < 1 {
        return false;
      }
      var i := 0;
      while i < n && block[i] != bc.buf[b].blockno
        invariant i <= n && bc.buf[b].blockno !in block[..i]
      {
        i := i + 1;
      }
      block := block[i := bc.buf[b].blockno];
      if i == n {
        n := n + 1;
        assert Lh() == old(Lh()) + [bc.buf[b].blockno];
      } else {
        assert old(Lh())[i] == bc.buf[b].blockno && Lh() == old(Lh());
      }
      bc.Pin(b);
      ok := true;
    }

    /** bread and brelse of a block; there is no buffer exactly if all hold dirty blocks and not this one. */
    method ReadBlock(m: nat) returns (ok: bool, data: Block)
      requires Valid() && m < |bc.view|
      modifies bc
      ensures ok <==> m in Dirty(old(bc.buf)) || |Dirty(old(bc.buf))| < NBUF
      ensures ok ==> Valid() && Dirty(bc.buf) == Dirty(old(bc.buf)) && data == old(bc.view)[m]
      ensures bc.view == old(bc.view) && bc.disk == old(bc.disk) && bc.writes == old(bc.writes)
    {
      hide Dirty, Linked, Permutation, Indexed;
      data := ZERO_BLOCK;
      var b := Acquire(m, {});
      ok := b != HEAD;
      if ok {
        data := bc.buf[b].data;
        Release(b);
      }
    }

    /** The use that log_write is made for: bread, change the data, log_write, brelse. */
    method Update(m: Uint, data: Block) returns (ok: bool)
      requires Valid() && Dirty(bc.buf) <= Blocknos(Lh()) && m < |bc.view| && area.Home(m)
      modifies this`n, this`block, bc
      ensures ok <==> && (m in Dirty(old(bc.buf)) || |Dirty(old(bc.buf))| < NBUF)
                      && !TooBig(old(n), area.size) && outstanding >= 1
      ensures ok ==> Valid() && Lh() == Logged(old(Lh()), m) && Dirty(bc.buf) == Dirty(old(bc.buf)) + {m}
      ensures ok ==> bc.view == old(bc.view)[m := data]
      ensures bc.disk == old(bc.disk) && bc.writes == old(bc.writes)
    {
      hide Dirty, Linked, Permutation, Indexed, Blocknos, Logged, TooBig;
      var b := Acquire(m, {});
      if b == HEAD {
        return false;
      }
      ghost var buf := bc.buf;
      bc.SetData(b, data);
      DirtyKept(buf, b, bc.buf[b]);
      ok := LogHeld(b, m);
    }

    /** log_write and brelse of the one buffer that is held. */
    method LogHeld(b: nat, ghost m: Uint) returns (ok: bool)
      requires bc.Valid() && |block| == LOGSIZE && n <= LOGSIZE && area.Transaction(Lh(), bc.view)
      requires m < |bc.view| && area.Home(m)
      requires b < NBUF && bc.buf[b].locked && bc.buf[b].valid && bc.buf[b].blockno == m
      requires forall c: nat :: c < NBUF ==> bc.buf[c].refcnt == if c == b then 1 else 0
      modifies this`n, this`block, bc`buf, bc`view, bc`prev, bc`next, bc`lru, bc`released
      ensures ok == (!TooBig(old(n), area.size) && outstanding >= 1)
      ensures ok ==> Valid() && Lh() == Logged(old(Lh()), m) && Dirty(bc.buf) == Dirty(old(bc.buf)) + {m}
      ensures ok ==> bc.view == old(bc.view)[m := old(bc.buf)[b].data]
    {
      hide Dirty, Linked, Permutation, Indexed, Blocknos;
      ghost var buf := bc.buf;
      ok := LogWrite(b);
      if ok {
        DirtyAdded(buf, b);
        Release(b);
      }
    }
  }
}
