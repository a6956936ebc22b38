/**
 Crashes, seen from the files (fs.c over log.c): whatever part of a transaction's commit reached
 the disk, and however often recovery crashes after it, the disk that recovery leaves holds the
 file system from before the operation or the one after it, with nothing in between.
 */
module FileCrash {

  import opened Basics
  import opened Blocks
  import opened FileState
  import opened FileContents
  import opened FileLog
  import opened LogCrash
  import opened Fs
  import opened FileWrite

  /** The log is in front of the inodes, and empty on disk. */
  ghost predicate LogReady(a: Area, sb: Super, disk: seq<Block>) {
    && a.Fits(disk) && a.start + a.size <= sb.inodestart
    && a.Readable(disk) && Header(disk[a.start]) == []
  }

  // ---------- the files depend only on the home blocks ----------

  /** The file system of `s`, read from another disk. */
  function On(s: State, disk: seq<Block>): State {
    State(disk, s.itab, s.owner)
  }

  /** From `s` to `t` the file system is the same, in memory and on disk. */
  ghost predicate SameSystem(sb: Super, s: State, t: State)
    requires Layout(sb) && |s.disk| == sb.size && |s.itab| == sb.ninodes
  {
    Inv(sb, t) && t.itab == s.itab && t.owner == s.owner && OthersKept(sb, s, t, |s.itab|)
  }

  lemma HomeAddr(sb: Super, a: Area, s: State, disk: seq<Block>, j: nat, k: nat)
    requires Owners(sb, s) && a.start + a.size <= sb.inodestart && SameHome(a, s.disk, disk)
    requires j < |s.itab| && k <= INDIRECT
    ensures Addr(On(s, disk), j, k) == Addr(s, j, k)
  {
    assert Addr(s, j, INDIRECT) == s.itab[j].addrs[NDIRECT];
    if Addr(s, j, INDIRECT) != 0 {
      SlotBlock(sb, s, j, INDIRECT);
      assert a.Home(Addr(s, j, INDIRECT));
    }
    hide Owned, Slots, Word;
  }

  lemma HomeByte(sb: Super, a: Area, s: State, disk: seq<Block>, j: nat, x: nat)
    requires Owners(sb, s) && a.start + a.size <= sb.inodestart && SameHome(a, s.disk, disk)
    requires j < |s.itab| && x < MAXFILE * BSIZE
    ensures ByteAt(On(s, disk), j, x) == ByteAt(s, j, x)
  {
    hide Addr, Owned, Slots;
    HomeAddr(sb, a, s, disk, j, x / BSIZE);
    if Addr(s, j, x / BSIZE) != 0 {
      SlotBlock(sb, s, j, x / BSIZE);
      assert a.Home(Addr(s, j, x / BSIZE));
    }
  }

  lemma HomeMap(sb: Super, a: Area, s: State, disk: seq<Block>)
    requires Inv(sb, s) && a.start + a.size <= sb.inodestart && SameHome(a, s.disk, disk)
    ensures Bitmap(sb, On(s, disk))
  {
    hide Owned, Slots, Bit;
    forall b: nat | b < sb.size ensures Used(sb, disk, b) <==> Used(sb, s.disk, b) {
      assert a.Home(BBlock(sb, b));
    }
  }

  /** Two disks with the same home blocks hold the same file system. */
  lemma HomeSystem(sb: Super, a: Area, s: State, disk: seq<Block>)
    requires Inv(sb, s) && a.start + a.size <= sb.inodestart && SameHome(a, s.disk, disk)
    ensures SameSystem(sb, s, On(s, disk))
  {
    hide Addr, ByteAt, Owned, Slots, Bitmap, Holds;
    var t := On(s, disk);
    HomeMap(sb, a, s, disk);
    forall j: nat, k: nat | j < |s.itab| && k <= INDIRECT ensures Addr(t, j, k) == Addr(s, j, k) {
      HomeAddr(sb, a, s, disk, j, k);
    }
    forall j: nat, x: nat | j < |s.itab| && x < MAXFILE * BSIZE ensures ByteAt(t, j, x) == ByteAt(s, j, x) {
      HomeByte(sb, a, s, disk, j, x);
    }
    forall j: nat | j < |s.itab| && Synced(sb, s, j) ensures Synced(sb, t, j) {
      assert a.Home(IBlock(sb, j));
    }
    SameOwners(sb, s, t);
  }

  lemma SystemContents(sb: Super, s: State, t: State, i: nat)
    requires Owners(sb, s) && SameSystem(sb, s, t) && i < |s.itab| && s.itab[i].size <= MAXFILE * BSIZE
    ensures Contents(t, i) == Contents(s, i) && (FileOk(sb, s, i) ==> FileOk(sb, t, i))
  {
    hide Addr, ByteAt, Owned, Slots, Bitmap, Synced;
    if FileOk(sb, s, i) {
      OthersOk(sb, s, t, |s.itab|, i);
    }
  }

  // ---------- a transaction of the file layer ----------

  /** What a transaction lists: blocks of inodes, of the free map and of files. */
  lemma ListsHome(a: Area, sb: Super, s: State, i: nat, from: nat, to: nat, lh: seq<Uint>)
    requires Inv(sb, s) && i < |s.itab| && a.Fits(s.disk) && a.start + a.size <= sb.inodestart
    requires NoRepeats(lh) && Within(sb, s, i, from, to, [], lh) && |lh| <= LOGSIZE && |lh| < a.size
    ensures a.Transaction(lh, s.disk)
  {
    hide Addr, Used, Slots, Bitmap;
    forall j | 0 <= j < |lh| ensures a.Home(lh[j]) && lh[j] < |s.disk| {
      assert lh[j] in lh;
      assert Touched(sb, s, i, from, to, lh[j]);
    }
  }

  lemma Committable(a: Area, sb: Super, s: State, s': State, lh: seq<Uint>)
    requires Inv(sb, s) && Inv(sb, s') && LogReady(a, sb, s.disk)
    requires a.Transaction(lh, s'.disk) && Covered(s.disk, s'.disk, lh)
    ensures CommitReady(a, s.disk, lh, s'.disk)
  {
    hide Owned, Slots, Bitmap, Header, Word;
    assert a.start !in lh;
  }

  /** The disk after `k` block writes of the commit, recoveries that crash as `ks` says, and one that does not. */
  ghost function Survivor(a: Area, disk: Disk, lh: seq<Uint>, view: Disk, k: nat, ks: seq<nat>): Disk
    requires CommitReady(a, disk, lh, view) && k <= |CommitWrites(a, lh, view)|
  {
    CrashAtomicity(a, disk, lh, view, k, ks);
    Recover(a, Crashes(a, Crashed(a, disk, lh, view, k), ks))
  }

  /** Before the first header write the old file system survives, from then on the new one. */
  lemma OldOrNew(a: Area, sb: Super, s: State, s': State, lh: seq<Uint>, k: nat, ks: seq<nat>)
    requires Inv(sb, s) && Inv(sb, s') && LogReady(a, sb, s.disk)
    requires a.Transaction(lh, s'.disk) && Covered(s.disk, s'.disk, lh) && k <= |CommitWrites(a, lh, s'.disk)|
    ensures CommitReady(a, s.disk, lh, s'.disk)
    ensures var d := Survivor(a, s.disk, lh, s'.disk, k, ks);
            if k <= |lh| then SameSystem(sb, s, On(s, d)) else SameSystem(sb, s', On(s', d))
  {
    hide Owned, Slots, Bitmap, Covered, Area.Transaction, CommitWrites, Crashes, Crashed, Recover, SameSystem;
    Committable(a, sb, s, s', lh);
    CrashAtomicity(a, s.disk, lh, s'.disk, k, ks);
    if k <= |lh| {
      HomeSystem(sb, a, s, Survivor(a, s.disk, lh, s'.disk, k, ks));
    } else {
      HomeSystem(sb, a, s', Survivor(a, s.disk, lh, s'.disk, k, ks));
    }
  }

  /**
   On the disk `d` the file i holds all of the write or nothing of it: its contents are those of `s`,
   or those with `src` spliced in at `off`, and every other file is as it was.
   */
  ghost predicate AllOrNothing(sb: Super, s: State, s': State, d: Disk, i: nat, src: seq<Byte>, off: nat, all: bool)
    requires Owners(sb, s) && i < |s.itab| && off <= s.itab[i].size <= MAXFILE * BSIZE
  {
    var t := On(if all then s' else s, d);
    && Inv(sb, t) && OthersKept(sb, s, t, i) && t.itab[i].size <= MAXFILE * BSIZE
    && (FileOk(sb, s, i) ==> FileOk(sb, t, i)) && |Contents(s, i)| == s.itab[i].size
    && Contents(t, i) == if all then Splice(Contents(s, i), src, off) else Contents(s, i)
  }

  lemma WholeOrNone(a: Area, sb: Super, s: State, s': State, i: nat, src: seq<Byte>, off: nat, lh: seq<Uint>,
                    k: nat, ks: seq<nat>)
    requires Inv(sb, s) && Inv(sb, s') && LogReady(a, sb, s.disk) && i < |s.itab|
    requires off <= s.itab[i].size <= MAXFILE * BSIZE && off + |src| <= MAXFILE * BSIZE && End(off, |src|) <= MAXFILE
    requires Spliced(sb, s, s', i, src, off) && a.Transaction(lh, s'.disk) && Covered(s.disk, s'.disk, lh)
    requires k <= |CommitWrites(a, lh, s'.disk)|
    ensures CommitReady(a, s.disk, lh, s'.disk)
    ensures AllOrNothing(sb, s, s', Survivor(a, s.disk, lh, s'.disk, k, ks), i, src, off, k > |lh|)
  {
    hide Owned, Slots, Bitmap, Covered, Area.Transaction, CommitWrites, Survivor, Spliced, SameSystem, LogReady,
         OthersKept, Contents, Splice, FileOk, CommitReady;
    OldOrNew(a, sb, s, s', lh, k, ks);
    var d := Survivor(a, s.disk, lh, s'.disk, k, ks);
    ContentsSize(s, i);
    SplicedSize(sb, s, s', i, src, off);
    if k <= |lh| {
      SystemFacts(sb, s, On(s, d), i);
      SystemContents(sb, s, On(s, d), i);
    } else {
      SplicedFacts(sb, s, s', i, src, off);
      SystemFacts(sb, s', On(s', d), i);
      SystemContents(sb, s', On(s', d), i);
      OthersTwice(sb, s, s', On(s', d), i);
    }
  }

  lemma SystemFacts(sb: Super, s: State, t: State, i: nat)
    requires Owners(sb, s) && SameSystem(sb, s, t) && i < |s.itab|
    ensures Inv(sb, t) && OthersKept(sb, s, t, i) && t.itab == s.itab
  {
    hide Addr, ByteAt, Owned, Slots, Bitmap, Synced;
  }

  lemma SplicedFacts(sb: Super, s: State, s': State, i: nat, src: seq<Byte>, off: nat)
    requires Owners(sb, s) && i < |s.itab| && off <= s.itab[i].size <= MAXFILE * BSIZE && off + |src| <= MAXFILE * BSIZE
    requires End(off, |src|) <= MAXFILE && Spliced(sb, s, s', i, src, off)
    ensures OthersKept(sb, s, s', i) && |s'.itab| == |s.itab| && (FileOk(sb, s, i) ==> FileOk(sb, s', i))
    ensures s'.itab[i].size <= MAXFILE * BSIZE && |Contents(s, i)| == s.itab[i].size
    ensures Contents(s', i) == Splice(Contents(s, i), src, off)
  {
    hide Addr, ByteAt, Owned, Slots, Synced, Need, Placed, Bare;
    ContentsSize(s, i);
  }

  /**
   A chunk of filewrite in its transaction, with a crash at every point of the commit: what survives
   has the whole chunk or nothing of it.
   */
  method CrashingChunk(f: File, a: Area, src: seq<Byte>) returns (out: Outcome, r: int)
    requires f.Ready() && 0 < |src| <= CHUNK && LogReady(a, f.fs.sb, f.fs.disk) && a.size == f.fs.nlog
    requires f.off <= f.fs.ip.size && f.off + |src| <= MAXFILE * BSIZE
    modifies f`off, f.fs`disk, f.fs`ip, f.fs`lh, f.fs`itab, f.fs`owner, f.fs`start
    ensures f.fs.inum < |f.fs.itab| && (out == Done || out == OutOfBlocks)
    ensures old(f.off) / BSIZE <= End(old(f.off), |src|) <= MAXFILE
    ensures out == OutOfBlocks <==> old(f.fs.TooFew(f.off / BSIZE, End(f.off, |src|)))
    ensures out == Done ==>
              && CommitReady(a, old(f.fs.disk), f.fs.lh, f.fs.disk) && f.Ready() && r == |src|
              && Spliced(f.fs.sb, old(f.fs.Now()), f.fs.Now(), f.fs.inum, src, old(f.off))
              && |f.fs.lh| == LogCount(old(f.fs.Now()), f.fs.inum, src, old(f.off))
    ensures out == Done ==> forall k: nat, ks: seq<nat> :: k <= |CommitWrites(a, f.fs.lh, f.fs.disk)| ==>
              AllOrNothing(f.fs.sb, old(f.fs.Now()), f.fs.Now(),
                           Survivor(a, old(f.fs.disk), f.fs.lh, f.fs.disk, k, ks),
                           f.fs.inum, src, old(f.off), k > |f.fs.lh|)
  {
    hide Bitmap, Owned, Slots, Spliced, Stuck, SameBefore, Within, LogCount, Need, TooBig, Covered, LogReady,
         Area.Transaction, CommitWrites, CommitReady, AllOrNothing, Survivor, NoRepeats;
    ghost var s, off := f.fs.Now(), f.off;
    out, r := f.WriteChunk(src);
    if out == Done {
      ghost var s' := f.fs.Now();
      ReadyFacts(a, f.fs.sb, s, s');
      ListsHome(a, f.fs.sb, s', f.fs.inum, off / BSIZE, End(off, |src|), f.fs.lh);
      WholeOrNone(a, f.fs.sb, s, s', f.fs.inum, src, off, f.fs.lh, 0, []);
      forall k: nat, ks: seq<nat> | k <= |CommitWrites(a, f.fs.lh, s'.disk)|
        ensures AllOrNothing(f.fs.sb, s, s', Survivor(a, s.disk, f.fs.lh, s'.disk, k, ks),
                             f.fs.inum, src, off, k > |f.fs.lh|)
      {
        WholeOrNone(a, f.fs.sb, s, s', f.fs.inum, src, off, f.fs.lh, k, ks);
      }
    }
  }

  lemma ReadyFacts(a: Area, sb: Super, s: State, s': State)
    requires LogReady(a, sb, s.disk) && |s'.disk| == |s.disk|
    ensures a.Fits(s'.disk) && a.start + a.size <= sb.inodestart
  {
  }
}
