/**
 Runs that reach the places where the code does not do what its comments say: an image with a
 hole in its root directory, a read that changes the disk, and a chunk over its budget.
 */
module Boundaries {

  import opened Basics
  import opened Blocks
  import opened FileState
  import opened FileContents
  import opened FileLog
  import opened LogCrash
  import opened Fs
  import opened FileWrite
  import opened FileCrash
  import Mkfs

  const ROOT: nat := Mkfs.ROOTINO

  /** A file of no bytes for each name. */
  function EmptyFiles(names: seq<seq<Byte>>): (files: seq<Mkfs.File>)
    ensures |files| == |names|
    ensures forall j: nat :: j < |files| ==> files[j] == Mkfs.File(names[j], [])
  {
    seq(|names|, j requires 0 <= j < |names| => Mkfs.File(names[j], []))
  }

  lemma {:induction false} NoBlocks(files: seq<Mkfs.File>)
    requires forall j: nat :: j < |files| ==> files[j].pieces == []
    ensures Mkfs.Total(files) == 0
  {
    if files != [] {
      NoBlocks(files[..|files| - 1]);
    }
  }

  lemma EmptyFit(names: seq<seq<Byte>>)
    requires |names| + 2 <= Mkfs.NINODES
    ensures Mkfs.Fits(EmptyFiles(names)) && Mkfs.Total(EmptyFiles(names)) == 0
  {
    NoBlocks(EmptyFiles(names));
    assert TakenBy(16 * (|names| + 2)) <= 7;
  }

  lemma ZeroLog(disk: seq<Block>)
    requires Mkfs.LogZero(disk)
    ensures LogReady(Area(2, LOGSIZE), Mkfs.LAYOUT, disk)
  {
    ZeroWord(0);
    assert disk[2] == ZERO_BLOCK;
  }

  /** The image of empty files, for as many as there are inodes. */
  method BuildEmpty(names: seq<seq<Byte>>) returns (img: Mkfs.Image)
    requires |names| + 2 <= Mkfs.NINODES
    ensures fresh(img) && Inv(Mkfs.LAYOUT, img.Now()) && |img.owner| == TakenBy(16 * (|names| + 2))
    ensures LogReady(Area(2, LOGSIZE), Mkfs.LAYOUT, img.disk)
    ensures forall i: nat :: i < Mkfs.NINODES ==> Synced(Mkfs.LAYOUT, img.Now(), i)
    ensures forall i: nat :: i < Mkfs.NINODES && i != ROOT ==> FileOk(Mkfs.LAYOUT, img.Now(), i)
    ensures FileOk(Mkfs.LAYOUT, img.Now(), ROOT) <==> (|names| + 2) % 32 != 0
    ensures Mkfs.RootIs(img.Now(), EmptyFiles(names))
    ensures forall i: nat :: 2 <= i < |names| + 2 ==> Mkfs.IsFile(img.Now(), i, [])
  {
    hide Bitmap, Owned, Slots, Synced, Tight, TakenBy, LogReady, Mkfs.RootIs, Mkfs.Fits, Mkfs.LogZero, Mkfs.SuperOk,
         Mkfs.Listed, Mkfs.Total, Mkfs.Bytes, Addr;
    img := new Mkfs.Image();
    EmptyFit(names);
    var files := EmptyFiles(names);
    var r := img.Build(files);
    ZeroLog(img.disk);
    forall i: nat | 2 <= i < |names| + 2 ensures Mkfs.IsFile(img.Now(), i, []) {
      assert files[i - 2].pieces == [] && Mkfs.IsFile(img.Now(), (i - 2) + 2, Mkfs.Flat(files[i - 2].pieces));
    }
  }

  /** Thirty empty files fill the root directory's first block: it claims a second one, and has none. */
  method ThirtyFiles(names: seq<seq<Byte>>) returns (img: Mkfs.Image)
    requires |names| == 30
    ensures fresh(img) && Inv(Mkfs.LAYOUT, img.Now()) && Synced(Mkfs.LAYOUT, img.Now(), ROOT)
    ensures img.itab[ROOT].kind % 0x1_0000 == 1 && img.itab[ROOT].size == 2 * BSIZE
    ensures Addr(img.Now(), ROOT, 0) != 0 && Addr(img.Now(), ROOT, 1) == 0
    ensures !FileOk(Mkfs.LAYOUT, img.Now(), ROOT) && |img.owner| == 1
  {
    hide Bitmap, Owned, Slots, Synced, Addr;
    img := BuildEmpty(names);
  }

  /** A hole in an inode's own addresses that one block fills. */
  lemma OneHole(s: State, i: nat, k: nat)
    requires i < |s.itab| && k < NDIRECT && Addr(s, i, k) == 0
    ensures Need(s, i, k, k + 1) == 1 && Bare(s, i, k, k + 1)
  {
    assert Missing(s, i, k, k) == 0;
    assert s.itab[i].addrs[k] == 0;
  }

  lemma HoleBytes(s: State, i: nat)
    requires i < |s.itab| && BSIZE + 16 <= s.itab[i].size <= MAXFILE * BSIZE && Addr(s, i, 1) == 0
    ensures BSIZE + 16 <= |Contents(s, i)| && Contents(s, i)[BSIZE..BSIZE + 16] == seq(16, _ => 0)
  {
    hide Addr;
    ContentsSize(s, i);
  }

  /**
   Reading an entry from the root directory of that image takes a block from the free map, and
   leaves the directory's inode on disk behind the one in memory.
   */
  method ReadHole(names: seq<seq<Byte>>) returns (fs: Fs, out: Outcome, r: int, dst: seq<Byte>, ghost before: State)
    requires |names| == 30
    ensures fresh(fs) && out == Done && r == 16 && dst == seq(16, _ => 0) && before.disk != fs.disk
    ensures |before.owner| == 1 && |fs.owner| == 2 && ROOT < fs.sb.ninodes
    ensures Inv(fs.sb, before) && Synced(fs.sb, before, ROOT) && fs.Valid() && !Synced(fs.sb, fs.Now(), ROOT)
  {
    hide Bitmap, Owned, Slots, Synced, Addr, Need, Bare, Contents, Within, OneEach, Tight, Stuck, NoRepeats;
    var img := ThirtyFiles(names);
    fs := new Fs(Mkfs.LAYOUT, LOGSIZE, img.disk, img.itab, img.owner);
    before := fs.Now();
    NoneLogged();
    var ok := fs.Ilock(ROOT);
    OneHole(before, ROOT, 1);
    HoleBytes(before, ROOT);
    out, r, dst := fs.Readi(BSIZE, 16, NoDrivers());
    LoggedBlocks(fs.sb, fs.Now(), ROOT, 1, 2, fs.lh);
    MapMoved(fs.sb, before, fs.Now());
  }

  /** The file has these bytes at `off`. */
  ghost predicate Shows(s: State, i: nat, off: nat, t: seq<Byte>) {
    && i < |s.itab| && s.itab[i].size <= MAXFILE * BSIZE && off + |t| <= |Contents(s, i)|
    && Contents(s, i)[off..off + |t|] == t
  }

  /**
   So does writing one there: the file does not grow, so writei does not write the inode, and the new
   block is one that the inode on disk does not know.
   */
  method WriteHole(names: seq<seq<Byte>>, src: seq<Byte>) returns (fs: Fs, out: Outcome, r: int, ghost before: State)
    requires |names| == 30 && |src| == 16
    ensures fresh(fs) && out == Done && r == 16 && |before.owner| == 1 && |fs.owner| == 2 && ROOT < fs.sb.ninodes
    ensures Inv(fs.sb, before) && Synced(fs.sb, before, ROOT) && fs.Valid() && !Synced(fs.sb, fs.Now(), ROOT)
    ensures fs.ip.size == 2 * BSIZE && Shows(fs.Now(), ROOT, BSIZE, src)
  {
    hide Bitmap, Owned, Slots, Synced, Addr, Need, Bare, Contents, Within, OneEach, Tight, Stuck, NoRepeats, Spliced;
    var img := ThirtyFiles(names);
    fs := new Fs(Mkfs.LAYOUT, LOGSIZE, img.disk, img.itab, img.owner);
    before := fs.Now();
    NoneLogged();
    var ok := fs.Ilock(ROOT);
    OneHole(before, ROOT, 1);
    out, r := fs.Writei(src, BSIZE, NoDrivers());
    LoggedBlocks(fs.sb, fs.Now(), ROOT, 1, 2, fs.lh);
    InHole(fs.sb, before, fs.Now(), ROOT, src);
  }

  lemma InHole(sb: Super, s: State, s': State, i: nat, src: seq<Byte>)
    requires Owners(sb, s) && i < |s.itab| && s.itab[i].size == 2 * BSIZE && |src| == 16 && Synced(sb, s, i)
    requires Spliced(sb, s, s', i, src, BSIZE) && Need(s, i, 1, 2) == 1 && Bare(s, i, 1, 2)
    ensures |s'.owner| == |s.owner| + 1 && |s'.itab| == |s.itab| && s'.itab[i].size == s.itab[i].size
    ensures Owners(sb, s') && !Synced(sb, s', i)
    ensures Shows(s', i, BSIZE, src)
  {
    hide Addr, Need, Bare, Synced, Tight, Placed, ByteAt, OthersKept, OwnersKept;
    ContentsSize(s, i);
    ContentsSize(s', i);
  }

  /** The free map says which blocks are taken, so it is not the same when more of them are. */
  lemma MapMoved(sb: Super, s: State, s': State)
    requires Inv(sb, s) && Inv(sb, s') && |s'.owner| > |s.owner|
    ensures s'.disk != s.disk
  {
    if s'.disk == s.disk {
      forall b | b in s'.owner ensures b in s.owner {
      }
      SubsetSize(s'.owner.Keys, s.owner.Keys);
    }
  }

  /** On an empty file a chunk needs an indirect block too, and changes the free map and the inode. */
  lemma FirstChunk(s: State, i: nat, src: seq<Byte>)
    requires i < |s.itab| && s.itab[i].size == 0 && Tight(s, i, 0) && |src| == CHUNK
    ensures End(0, CHUNK) == 13 && Need(s, i, 0, 13) == 14 && LogCount(s, i, src, 0) == 16
  {
    hide Addr, Need;
    NeedTight(s, i, 0, 0, CHUNK);
    assert Addr(s, i, 12) == 0;
    assert EntryMissing(s, i, 0, 13);
  }

  /**
   The first chunk of a new file logs sixteen blocks: more than the ten that begin_op sets aside for it.
   In a transaction of its own that is safe: after a crash anywhere the file has the chunk or is empty.
   */
  method OverBudget(name: seq<Byte>, src: seq<Byte>)
    returns (f: FileWrite.File, out: Outcome, r: int, ghost before: State)
    requires |src| == CHUNK
    ensures fresh(f) && out == Done && r == CHUNK
    ensures |f.fs.lh| == 16 && |f.fs.lh| > MAXOPBLOCKS
    ensures f.Ready() && f.Bytes() == src
    ensures var a := Area(2, LOGSIZE);
            && CommitReady(a, before.disk, f.fs.lh, f.fs.disk)
            && forall k: nat, ks: seq<nat> :: k <= |CommitWrites(a, f.fs.lh, f.fs.disk)| ==>
                 FileIs(On(if k > 16 then f.fs.Now() else before, Survivor(a, before.disk, f.fs.lh, f.fs.disk, k, ks)),
                        2, if k > 16 then src else [])
  {
    hide Bitmap, Owned, Slots, Synced, Addr, Need, Contents, Tight, Stuck, NoRepeats, LogCount, Spliced, End, FileOk,
         LogReady, CommitWrites, Survivor, AllOrNothing, FileIs, On, Covered, Splice, Header, Word;
    var img := BuildEmpty([name]);
    var fs := new Fs(Mkfs.LAYOUT, LOGSIZE, img.disk, img.itab, img.owner);
    before := fs.Now();
    NoneLogged();
    assert Mkfs.IsFile(before, 2, []) && FileOk(Mkfs.LAYOUT, before, 2);
    EmptyContents(Mkfs.LAYOUT, before, 2);
    var ok := fs.Ilock(2);
    f := new FileWrite.File(fs, 0);
    FirstChunk(before, 2, src);
    out, r := CrashingChunk(f, Area(2, LOGSIZE), src);
    OnEmpty(fs.sb, before, fs.Now(), 2, src);
    forall k: nat, ks: seq<nat> | k <= |CommitWrites(Area(2, LOGSIZE), fs.lh, fs.disk)|
      ensures FileIs(On(if k > 16 then fs.Now() else before,
                        Survivor(Area(2, LOGSIZE), before.disk, fs.lh, fs.disk, k, ks)),
                     2, if k > 16 then src else [])
    {
      ghost var d := Survivor(Area(2, LOGSIZE), before.disk, fs.lh, fs.disk, k, ks);
      ChunkOrEmpty(fs.sb, before, fs.Now(), d, 2, src, k > 16);
    }
  }

  /** File i of a sound file system has these bytes. */
  ghost predicate FileIs(s: State, i: nat, t: seq<Byte>) {
    Inv(Mkfs.LAYOUT, s) && i < |s.itab| && s.itab[i].size <= MAXFILE * BSIZE && Contents(s, i) == t
  }

  lemma ChunkOrEmpty(sb: Super, s: State, s': State, d: Disk, i: nat, src: seq<Byte>, all: bool)
    requires sb == Mkfs.LAYOUT && Owners(sb, s) && i < |s.itab| && s.itab[i].size == 0
    requires AllOrNothing(sb, s, s', d, i, src, 0, all)
    ensures FileIs(On(if all then s' else s, d), i, if all then src else [])
  {
    hide Addr, ByteAt, Synced, Owned, Slots, Bitmap, OthersKept, FileOk;
    ContentsSize(s, i);
  }

  lemma EmptyContents(sb: Super, s: State, i: nat)
    requires Owners(sb, s) && i < |s.itab| && FileOk(sb, s, i) && Mkfs.IsFile(s, i, [])
    ensures s.itab[i].size == 0 && Tight(s, i, 0)
  {
    hide Addr, Synced, Owned, Slots;
    FileSize(sb, s, i);
  }

  lemma OnEmpty(sb: Super, s: State, s': State, i: nat, src: seq<Byte>)
    requires Owners(sb, s) && i < |s.itab| && s.itab[i].size == 0 && |src| <= MAXFILE * BSIZE
    requires End(0, |src|) <= MAXFILE
    requires Spliced(sb, s, s', i, src, 0)
    ensures |s'.itab| == |s.itab| && s'.itab[i].size <= MAXFILE * BSIZE && Contents(s', i) == src
  {
    hide Addr, Need, Synced, Bare, Tight, Placed, ByteAt;
    ContentsSize(s, i);
  }
}
