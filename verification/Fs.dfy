/**
 The file layer's operations on the locked inode (fs.c): block allocation, the block
 map, truncation, and byte-granular reading and writing.

 Buffers are written through to `disk`, the view that the buffer cache gives of the disk.
 `lh` lists the blocks the current transaction has logged, as in the log's header.
 */
module Fs {

  import opened Basics
  import opened Blocks
  import opened FileState
  import opened FileContents
  import opened FileLog
  import opened FileTrunc
  import opened LogCrash

  /** How an operation ends: normally, or in one of the kernel's panics. */
  datatype Outcome = Done | OutOfBlocks | LogFull | OutOfRange | FreeingFree

  const NDEV: nat := 10

  /** devsw before any driver has registered itself. */
  function NoDrivers<T>(): (devsw: seq<Option<T>>)
    ensures |devsw| == NDEV
  {
    [None, None, None, None, None, None, None, None, None, None]
  }

  /** A 16-bit field, which C reads as signed. */
  function Short(x: nat): int {
    if x < 0x8000 then x else x - 0x1_0000
  }

  lemma SameBlock(sb: Super, b: nat, bi: nat)
    requires b % BPB == 0 && bi < BPB
    ensures BBlock(sb, b + bi) == BBlock(sb, b) && (b + bi) % BPB == bi
  {
  }

  /** Setting the bit of a free block and zeroing it takes the block. */
  lemma TakeBlock(sb: Super, s: State, disk': seq<Block>, b: nat)
    requires Inv(sb, s) && b < sb.size && !Used(sb, s.disk, b)
    requires BBlock(sb, b) < |s.disk|
    requires disk' == s.disk[BBlock(sb, b) := SetBit(s.disk[BBlock(sb, b)], b % BPB)][b := ZERO_BLOCK]
    ensures Taken(sb, s.disk, disk', b)
  {
    hide Owned, Slots, Bit, SetBit;
    forall c: nat | c < sb.size ensures Used(sb, disk', c) <==> c == b || Used(sb, s.disk, c) {
      if BBlock(sb, c) == BBlock(sb, b) {
        assert c % BPB == b % BPB ==> c == b;
      }
    }
  }

  // ---------- when the disk is full ----------

  /**
   From `s` to `s'` an operation on file i has met a full disk: it has gained some of the
   blocks it needed, but not all `need` of them.
   */
  ghost predicate Stuck(sb: Super, s: State, s': State, i: nat, need: nat)
    requires Layout(sb) && |s.disk| == sb.size && |s.itab| == sb.ninodes
  {
    && Inv(sb, s') && (forall c: nat :: c < sb.size ==> Used(sb, s'.disk, c))
    && OthersKept(sb, s, s', i) && OwnersKept(s, s') && |s'.owner| < |s.owner| + need
  }

  /** So there were not enough free blocks. */
  lemma StuckFull(sb: Super, s: State, s': State, i: nat, need: nat)
    requires Layout(sb) && |s.disk| == sb.size && |s.itab| == sb.ninodes && Stuck(sb, s, s', i, need)
    ensures |s.owner| + need > sb.size - sb.nmeta
  {
    hide Bitmap, Owned, Slots, OthersKept, OwnersKept, Used;
    OwnedCount(sb, s');
  }

  lemma StuckSize(sb: Super, s: State, s': State, i: nat, need: nat)
    requires Layout(sb) && |s.disk| == sb.size && |s.itab| == sb.ninodes && Stuck(sb, s, s', i, need)
    ensures |s'.itab| == |s.itab|
  {
  }

  lemma StuckLater(sb: Super, s0: State, s: State, s': State, i: nat, before: nat, need: nat, total: nat)
    requires Layout(sb) && |s0.disk| == sb.size && |s0.itab| == sb.ninodes && OthersKept(sb, s0, s, i)
    requires OwnersKept(s0, s) && |s.owner| == |s0.owner| + before && before + need <= total
    requires |s.disk| == |s0.disk| && |s.itab| == |s0.itab| && Stuck(sb, s, s', i, need)
    ensures Stuck(sb, s0, s', i, total)
  {
    hide Bitmap, Owned, Slots, Used, Addr, ByteAt, Synced;
    OthersTwice(sb, s0, s, s', i);
  }

  /** Bytes before `off` are as they were. */
  ghost predicate SameBefore(s: State, s': State, i: nat, off: nat)
    requires i < |s.itab| == |s'.itab|
  {
    forall x: nat :: x < off && x < MAXFILE * BSIZE ==> ByteAt(s', i, x) == ByteAt(s, i, x)
  }

  lemma LaidBefore(s0: State, s: State, s': State, i: nat, src: seq<Byte>, off: nat)
    requires i < |s0.itab| == |s.itab| == |s'.itab| && Laid(s0, s, i, src, off) && SameBytes(s, s', i)
    ensures SameBefore(s0, s', i, off)
  {
    hide ByteAt;
  }

  /** A part of a write has met the full disk. */
  lemma StuckPart(sb: Super, s0: State, s: State, s': State, i: nat, src: seq<Byte>, off: nat, tot: nat, m: nat, n: nat)
    requires Owners(sb, s0) && i < |s0.itab| && |src| == tot && tot + m <= n && 0 < m
    requires (off + tot) % BSIZE + m <= BSIZE
    requires off + n <= MAXFILE * BSIZE && End(off, n) <= MAXFILE && End(off, tot) <= MAXFILE
    requires Written(sb, s0, s, i, src, off, End(off, tot)) && |s.itab| == |s0.itab| && |s.disk| == |s0.disk|
    requires (off + tot) / BSIZE < MAXFILE
    requires Stuck(sb, s, s', i, Need(s, i, (off + tot) / BSIZE, (off + tot) / BSIZE + 1))
    requires |s'.itab| == |s.itab| && SameBytes(s, s', i)
    ensures Stuck(sb, s0, s', i, Need(s0, i, off / BSIZE, End(off, n))) && SameBefore(s0, s', i, off)
  {
    hide Addr, ByteAt, Synced, Owned, Slots, Need, Placed, OthersKept, OwnersKept, Stuck, Laid, SameBytes, SameBefore;
    var k := (off + tot) / BSIZE;
    EndNext(off, tot, m);
    EndBound(off, tot + m, n);
    NeedOneMore(s0, s, i, off / BSIZE, End(off, tot), k);
    NeedGrows(s0, i, off / BSIZE, k + 1, End(off, n));
    StuckLater(sb, s0, s, s', i, Need(s0, i, off / BSIZE, End(off, tot)), Need(s, i, k, k + 1),
               Need(s0, i, off / BSIZE, End(off, n)));
    LaidBefore(s0, s, s', i, src, off);
  }

  // ---------- reading ----------

  lemma GotNone(sb: Super, s: State, i: nat, from: nat)
    requires Owners(sb, s) && i < |s.itab| && from <= MAXFILE
    ensures Got(sb, s, s, i, from, from)
  {
    OthersSelf(sb, s, i);
    hide Addr, ByteAt, Synced, Owned, Slots, OthersKept;
  }

  lemma GotTwice(sb: Super, s0: State, s1: State, s2: State, i: nat, from: nat, mid: nat, from': nat, to: nat)
    requires Owners(sb, s0) && i < |s0.itab| && from <= from' <= mid <= to <= MAXFILE
    requires Got(sb, s0, s1, i, from, mid) && |s1.itab| == |s0.itab| && |s1.disk| == |s0.disk|
    requires Got(sb, s1, s2, i, from', to)
    ensures Got(sb, s0, s2, i, from, to) && |s2.itab| == |s0.itab|
  {
    hide Addr, ByteAt, Synced, Owned, Slots, Need, Placed;
    OthersTwice(sb, s0, s1, s2, i);
    PlacedTwice(s0, s1, s2, i, from, mid, from', to);
  }

  lemma GotBytes(sb: Super, s: State, s': State, i: nat, from: nat, to: nat)
    requires Layout(sb) && |s.disk| == sb.size && i < |s.itab| == sb.ninodes && to <= MAXFILE
    requires Got(sb, s, s', i, from, to)
    ensures |s'.itab| == |s.itab| && |s'.disk| == |s.disk|
    ensures forall x: nat :: x < MAXFILE * BSIZE ==> ByteAt(s', i, x) == ByteAt(s, i, x)
  {
    hide Addr, ByteAt, Synced, Owned, Slots, Need, Placed;
  }

  /** Where nothing is needed, every slot is filled. */
  lemma NeedNone(s: State, i: nat, from: nat, to: nat, k: nat)
    requires i < |s.itab| && from <= k < to <= MAXFILE
    ensures Need(s, i, from, to) == 0 ==> Addr(s, i, k) != 0
  {
    hide Addr;
    if k < to - 1 {
      MissingGrows(s, i, from, k + 1, to);
    }
  }

  lemma StuckRead(sb: Super, s0: State, s: State, s': State, i: nat, off: nat, tot: nat, m: nat, n: nat)
    requires Owners(sb, s0) && i < |s0.itab| && tot + m <= n && 0 < m && (off + tot) % BSIZE + m <= BSIZE
    requires off + n <= MAXFILE * BSIZE && End(off, n) <= MAXFILE && End(off, tot) <= MAXFILE
    requires Got(sb, s0, s, i, off / BSIZE, End(off, tot)) && |s.itab| == |s0.itab| && |s.disk| == |s0.disk|
    requires (off + tot) / BSIZE < MAXFILE
    requires Stuck(sb, s, s', i, Need(s, i, (off + tot) / BSIZE, (off + tot) / BSIZE + 1))
    ensures Stuck(sb, s0, s', i, Need(s0, i, off / BSIZE, End(off, n)))
  {
    hide Addr, ByteAt, Synced, Owned, Slots, Need, Placed, OthersKept, OwnersKept, Stuck, SameBytes;
    var k := (off + tot) / BSIZE;
    EndNext(off, tot, m);
    EndBound(off, tot + m, n);
    NeedOneMore(s0, s, i, off / BSIZE, End(off, tot), k);
    NeedGrows(s0, i, off / BSIZE, k + 1, End(off, n));
    StuckLater(sb, s0, s, s', i, Need(s0, i, off / BSIZE, End(off, tot)), Need(s, i, k, k + 1),
               Need(s0, i, off / BSIZE, End(off, n)));
  }

  /**
   What a read leaves: the same bytes everywhere, blocks for the slots it went through, and an
   inode on disk that is still right exactly if no address of the inode was empty.
   */
  ghost predicate ReadDone(sb: Super, s: State, s': State, i: nat, from: nat, to: nat)
    requires Owners(sb, s) && i < |s.itab| && to <= MAXFILE
  {
    && Got(sb, s, s', i, from, to)
    && (Synced(sb, s, i) ==> (Synced(sb, s', i) <==> !Bare(s, i, from, to)))
    && (s' == s <==> Need(s, i, from, to) == 0)
  }

  lemma ReadEnds(sb: Super, s: State, s': State, i: nat, from: nat, to: nat)
    requires Owners(sb, s) && i < |s.itab| && to <= MAXFILE && Got(sb, s, s', i, from, to)
    requires Need(s, i, from, to) == 0 ==> s' == s
    ensures ReadDone(sb, s, s', i, from, to) && |s'.owner| == |s.owner| + Need(s, i, from, to)
  {
    hide Addr, ByteAt, Synced, Owned, Slots, Need, Placed, OthersKept, OwnersKept, SameBytes, Bare;
    GotBytes(sb, s, s', i, from, to);
    if Synced(sb, s, i) {
      SyncedStill(sb, s, s', i, from, to);
    }
  }

  lemma SplicedOwners(sb: Super, s: State, s': State, i: nat, src: seq<Byte>, off: nat)
    requires Owners(sb, s) && i < |s.itab| && off <= s.itab[i].size <= MAXFILE * BSIZE && off + |src| <= MAXFILE * BSIZE
    requires End(off, |src|) <= MAXFILE && Spliced(sb, s, s', i, src, off)
    ensures Owners(sb, s')
  {
  }

  /**
   An operation on file i that leaves it in order leaves all files in order, and the others'
   contents as they were.
   */
  lemma WholeSystem(sb: Super, s: State, s': State, i: nat)
    requires Owners(sb, s) && i < |s.itab| && OthersKept(sb, s, s', i) && |s'.itab| == |s.itab| && |s'.disk| == |s.disk|
    requires (forall j: nat :: j < |s.itab| ==> FileOk(sb, s, j)) && FileOk(sb, s', i)
    ensures forall j: nat :: j < |s.itab| ==> FileOk(sb, s', j)
    ensures forall j: nat :: j < |s.itab| && j != i ==>
              s.itab[j].size <= MAXFILE * BSIZE && s'.itab[j].size == s.itab[j].size
                 && Contents(s', j) == Contents(s, j)
  {
    hide Addr, ByteAt, Owned, Slots, Synced;
    forall j: nat | j < |s.itab| && j != i
      ensures FileOk(sb, s', j) && s'.itab[j].size == s.itab[j].size && Contents(s', j) == Contents(s, j)
    {
      OthersOk(sb, s, s', i, j);
    }
  }

  class Fs {
    const sb: Super
    const nlog: nat
    var disk: seq<Block>
    var inum: nat
    var ip: Inode
    var lh: seq<Uint>
    ghost var itab: seq<Inode>
    ghost var owner: map<nat, Slot>
    ghost var start: seq<Block>   // the disk when the transaction began

    ghost function Now(): State
      reads this
    {
      State(disk, itab, owner)
    }

    ghost predicate Valid()
      reads this
    {
      Inv(sb, Now()) && inum < |itab| && itab[inum] == ip && NoRepeats(lh) && Covered(start, disk, lh)
    }

    /** Over a disk whose files are in order. */
    constructor (sb: Super, nlog: nat, disk: seq<Block>, ghost itab: seq<Inode>, ghost owner: map<nat, Slot>)
      requires Inv(sb, State(disk, itab, owner)) && 0 < sb.ninodes
      ensures this.sb == sb && this.nlog == nlog && lh == [] && Now() == State(disk, itab, owner)
      ensures start == disk && Covered(start, disk, lh)
    {
      this.sb, this.nlog, this.disk, this.inum, this.lh := sb, nlog, disk, 0, [];
      this.ip := Inode(0, 0, 0, seq(13, _ => 0));
      this.itab, this.owner, this.start := itab, owner, disk;
    }

    /** Reads an inode from disk, to work on it; an inode without a type is a panic. */
    method Ilock(i: nat) returns (ok: bool)
      requires Inv(sb, Now()) && i < sb.ninodes && Synced(sb, Now(), i) && NoRepeats(lh) && Covered(start, disk, lh)
      modifies this`inum, this`ip
      ensures Valid() && inum == i && ok == (itab[i].kind % 0x1_0000 != 0)
    {
      hide Bitmap, Owned, Slots, Holds;
      inum := i;
      ip := ReadInode(disk[IBlock(sb, i)], i % IPB);
      ok := ip.kind % 0x1_0000 != 0;
    }

    /** log_write: the block joins the transaction, unless that is too big already. */
    method LogWrite(b: Uint) returns (ok: bool)
      requires NoRepeats(lh)
      modifies this`lh
      ensures NoRepeats(lh) && ok == !TooBig(|old(lh)|, nlog)
      ensures !ok ==> lh == old(lh)
      ensures ok ==> lh == Logged(old(lh), b) && forall c :: c in lh <==> c in old(lh) || c == b
      ensures forall c :: c in lh ==> c in old(lh) || c == b
    {
      if TooBig(|lh|, nlog) {
        return false;
      }
      LoggedOnce(lh, b);
      lh := Logged(lh, b);
      ok := true;
    }

    method Bzero(b: Uint) returns (ok: bool)
      requires NoRepeats(lh) && b < |disk|
      modifies this`disk, this`lh
      ensures disk == old(disk)[b := ZERO_BLOCK] && NoRepeats(lh) && ok == !TooBig(|old(lh)|, nlog)
      ensures if ok then forall c :: c in lh <==> c in old(lh) || c == b else lh == old(lh)
    {
      disk := disk[b := ZERO_BLOCK];
      ok := LogWrite(b);
    }

    /** The first free block, marked used and zeroed. */
    method Balloc() returns (out: Outcome, b: Uint)
      requires Inv(sb, Now()) && NoRepeats(lh) && Covered(start, disk, lh)
      modifies this`disk, this`lh
      ensures NoRepeats(lh) && (out == Done || out == OutOfBlocks || out == LogFull)
      ensures out == Done ==> Covered(start, disk, lh)
      ensures out == Done ==> Taken(sb, old(disk), disk, b) && forall c: nat :: c < b ==> Used(sb, old(disk), c)
      ensures out == Done ==> Gained(sb, old(lh), lh, b)
      ensures out == OutOfBlocks ==> disk == old(disk) && lh == old(lh) && forall c: nat :: c < sb.size ==>
                Used(sb, disk, c)
      ensures out == LogFull ==> TooBig(|lh|, nlog)
      ensures forall c :: c in lh ==> c in old(lh) || MapBlock(sb, c) || (out == Done && c == b)
    {
      hide Owned, Slots, Bitmap, Bit, SetBit, Taken, Layout, TooBig, Covered;
      LayoutFacts();
      var base := 0;
      while base < sb.size
        invariant base % BPB == 0 && disk == old(disk) && lh == old(lh)
        invariant forall c: nat :: c < base && c < sb.size ==> Used(sb, disk, c)
      {
        var bi := 0;
        assert BBlock(sb, base) < |disk| && MapBlock(sb, BBlock(sb, base));
        while bi < BPB && base + bi < sb.size
          invariant bi <= BPB && disk == old(disk) && lh == old(lh)
          invariant forall c: nat :: c < base + bi && c < sb.size ==> Used(sb, disk, c)
        {
          SameBlock(sb, base, bi);
          if !Bit(disk[BBlock(sb, base)], bi) {
            b := base + bi;
            ghost var disk0, lh0 := disk, lh;
            disk := disk[BBlock(sb, base) := SetBit(disk[BBlock(sb, base)], bi)];
            var ok := LogWrite(BBlock(sb, base));
            if !ok {
              return LogFull, b;
            }
            CoveredMore(start, disk0, disk, lh0, lh, BBlock(sb, base));
            disk0, lh0 := disk, lh;
            ok := Bzero(b);
            if !ok {
              return LogFull, b;
            }
            CoveredMore(start, disk0, disk, lh0, lh, b);
            TakeBlock(sb, old(Now()), disk, b);
            return Done, b;
          }
          bi := bi + 1;
        }
        base := base + BPB;
      }
      return OutOfBlocks, 0;
    }

    /** A block for one of the inode's own thirteen addresses. */
    method AddDirect(at: nat) returns (out: Outcome, b: Uint)
      requires Valid() && at <= NDIRECT && ip.addrs[at] == 0
      modifies this`disk, this`ip, this`lh, this`itab, this`owner
      ensures NoRepeats(lh) && inum < |itab| && OwnersKept(old(Now()), Now()) && OneEach(owner)
      ensures out == Done || out == OutOfBlocks || out == LogFull
      ensures out == Done ==> Valid() && b > 0 && b !in old(owner) && ip == old(ip).(addrs := old(ip).addrs[at := b])
      ensures out == Done ==> Added(sb, old(Now()), Now(), inum, SlotOf(at), b) && Addr(Now(), inum, SlotOf(at)) == b
      ensures out == Done ==> Gained(sb, old(lh), lh, b)
      ensures out == OutOfBlocks ==>
                Now() == old(Now()) && ip == old(ip) && lh == old(lh) && forall c: nat :: c < sb.size ==>
                   Used(sb, disk, c)
      ensures out == LogFull ==> TooBig(|lh|, nlog)
      ensures Within(sb, Now(), inum, SlotOf(at), SlotOf(at) + 1, old(lh), lh)
    {
      hide Owned, Slots, Bitmap, Taken, Zeroed, Marked, Layout, TooBig, Added, Used, OneEach, Covered;
      ghost var s0 := Now();
      InvOneEach(sb, s0);
      LayoutFacts();
      out, b := Balloc();
      if out != Done {
        return;
      }
      TakenFacts(s0, disk, b);
      ip := ip.(addrs := ip.addrs[at := b]);
      itab, owner := itab[inum := ip], owner[b := Slot(inum, SlotOf(at))];
      AddedDirect(sb, s0, Now(), inum, SlotOf(at), b);
      MarkedBitmap(sb, s0, disk, Now(), Slot(inum, SlotOf(at)), b);
      AddedSlot(sb, s0, Now(), inum, SlotOf(at), b);
      InvOneEach(sb, Now());
    }

    lemma TakenFacts(s: State, disk': seq<Block>, b: nat)
      requires Inv(sb, s) && Taken(sb, s.disk, disk', b)
      ensures 0 < b < UINT_LIMIT && b !in s.owner && b < |disk'| == |s.disk| && sb.nmeta <= b
      ensures Zeroed(sb, s.disk, disk', b) && Marked(sb, s.disk, disk', b)
    {
    }

    /** A block for a slot that the indirect block lists. */
    method AddEntry(k: nat) returns (out: Outcome, b: Uint)
      requires Valid() && NDIRECT <= k < MAXFILE && Addr(Now(), inum, k) == 0 && Addr(Now(), inum, INDIRECT) != 0
      modifies this`disk, this`ip, this`lh, this`itab, this`owner
      ensures NoRepeats(lh) && inum < |itab| && OwnersKept(old(Now()), Now()) && OneEach(owner) && ip == old(ip)
      ensures out == Done || out == OutOfBlocks || out == LogFull
      ensures out == Done ==> Valid() && b > 0 && b !in old(owner) && owner == old(owner)[b := Slot(inum, k)]
      ensures out == Done ==> Added(sb, old(Now()), Now(), inum, k, b) && Addr(Now(), inum, k) == b
      ensures out == Done ==> LogGains(sb, old(Now()), Now(), inum, k, k + 1, old(lh), lh)
      ensures out == OutOfBlocks ==>
                Now() == old(Now()) && lh == old(lh) && forall c: nat :: c < sb.size ==> Used(sb, disk, c)
      ensures out == LogFull ==> TooBig(|lh|, nlog)
      ensures Within(sb, Now(), inum, k, k + 1, old(lh), lh)
    {
      hide Owned, Slots, Bitmap, Taken, Zeroed, Marked, Layout, TooBig, Added, Used, SetWord, Addr, OneEach, LogGains,
           Covered;
      ghost var s0, lh0 := Now(), lh;
      InvOneEach(sb, s0);
      LayoutFacts();
      var ind := ip.addrs[NDIRECT];
      SlotsOf(s0, inum, k);
      SlotBlock(sb, s0, inum, INDIRECT);
      out, b := Balloc();
      if out != Done {
        return;
      }
      TakenFacts(s0, disk, b);
      ghost var disk1 := disk;
      disk := disk[ind := SetWord(disk[ind], k - NDIRECT, b)];
      owner := owner[b := Slot(inum, k)];
      AddedEntry(sb, s0, Now(), inum, k, b, disk1);
      MarkedBitmap(sb, s0, disk1, Now(), Slot(inum, k), b);
      AddedSlot(sb, s0, Now(), inum, k, b);
      SlotsOf(Now(), inum, k);
      InvOneEach(sb, Now());
      ghost var lh1 := lh;
      var ok := LogWrite(ind);
      if !ok {
        return LogFull, b;
      }
      CoveredMore(start, disk1, disk, lh1, lh, ind);
      GainedThen(lh0, lh1, b, ind);
      GainsEntry(sb, s0, Now(), inum, k, b, lh0, lh);
    }

    lemma GainedThen(lh0: seq<Uint>, lh1: seq<Uint>, b: nat, ind: Uint)
      requires Gained(sb, lh0, lh1, b) && forall c :: c in lh <==> c in lh1 || c == ind
      ensures forall c: nat :: c in lh <==> c in lh0 || c == BBlock(sb, b) || c == b || c == ind
    {
    }

    /** The block of the file's block `bn`, allocated if there is none. */
    method Bmap(bn: nat) returns (out: Outcome, addr: Uint)
      requires Valid()
      modifies this`disk, this`ip, this`lh, this`itab, this`owner
      ensures NoRepeats(lh) && inum < |itab| && OwnersKept(old(Now()), Now()) && OneEach(owner)
      ensures bn >= MAXFILE ==> out == OutOfRange && Now() == old(Now()) && ip == old(ip) && lh == old(lh)
      ensures bn < MAXFILE ==> out == Done || out == OutOfBlocks || out == LogFull
      ensures bn < MAXFILE && Addr(old(Now()), inum, bn) != 0 ==>
                out == Done && Now() == old(Now()) && ip == old(ip) && lh == old(lh)
      ensures out == Done ==> Valid() && Got(sb, old(Now()), Now(), inum, bn, bn + 1)
      ensures out == Done ==> addr == Addr(Now(), inum, bn) != 0
      ensures out == Done && Addr(old(Now()), inum, bn) == 0 ==>
                LogGains(sb, old(Now()), Now(), inum, bn, bn + 1, old(lh), lh)
      ensures out == OutOfBlocks ==> Stuck(sb, old(Now()), Now(), inum, Need(old(Now()), inum, bn, bn + 1))
      ensures out == OutOfBlocks ==> SameBytes(old(Now()), Now(), inum)
      ensures out == LogFull ==> TooBig(|lh|, nlog)
      ensures Within(sb, Now(), inum, bn, bn + 1, old(lh), lh)
    {
      hide Owned, Slots, Bitmap, TooBig, Added, Used, Got, Addr, Layout, Within, OwnersKept, OneEach, Stuck, LogGains,
           Need, Covered;
      ghost var s0 := Now();
      InvOneEach(sb, s0);
      WithinNothing(sb, s0, inum, bn, lh);
      SlotsOf(s0, inum, bn);
      if bn < NDIRECT {
        addr := ip.addrs[bn];
        if addr == 0 {
          out, addr := AddDirect(bn);
          if out == Done {
            GotOne(sb, s0, Now(), inum, bn, addr);
            AddedOwner(s0, Now(), inum, bn, addr);
            GainsDirect(sb, s0, Now(), inum, bn, addr, old(lh), lh);
          } else if out == OutOfBlocks {
            StuckAtOnce(s0, inum, bn);
          }
          return;
        }
        GotNothing(sb, s0, inum, bn);
        return Done, addr;
      }
      if bn >= MAXFILE {
        return OutOfRange, 0;
      }
      if ip.addrs[NDIRECT] == 0 {
        out, addr := BmapBoth(bn);
        return;
      }
      SlotBlock(sb, s0, inum, INDIRECT);
      addr := Word(disk[ip.addrs[NDIRECT]], bn - NDIRECT);
      if addr == 0 {
        out, addr := AddEntry(bn);
        if out == Done {
          GotOne(sb, s0, Now(), inum, bn, addr);
        } else if out == OutOfBlocks {
          StuckAtOnce(s0, inum, bn);
        }
        return;
      }
      GotNothing(sb, s0, inum, bn);
      return Done, addr;
    }

    /** bmap where the file has no indirect block yet. */
    method BmapBoth(bn: nat) returns (out: Outcome, addr: Uint)
      requires Valid() && NDIRECT <= bn < MAXFILE && ip.addrs[NDIRECT] == 0
      modifies this`disk, this`ip, this`lh, this`itab, this`owner
      ensures NoRepeats(lh) && inum < |itab| && OwnersKept(old(Now()), Now()) && OneEach(owner)
      ensures out == Done || out == OutOfBlocks || out == LogFull
      ensures out == Done ==> Valid() && Got(sb, old(Now()), Now(), inum, bn, bn + 1)
      ensures out == Done ==> addr == Addr(Now(), inum, bn) != 0
      ensures out == Done ==> LogGains(sb, old(Now()), Now(), inum, bn, bn + 1, old(lh), lh)
      ensures out == OutOfBlocks ==> Stuck(sb, old(Now()), Now(), inum, Need(old(Now()), inum, bn, bn + 1))
      ensures out == OutOfBlocks ==> SameBytes(old(Now()), Now(), inum)
      ensures out == LogFull ==> TooBig(|lh|, nlog)
      ensures Within(sb, Now(), inum, bn, bn + 1, old(lh), lh)
    {
      hide Owned, Slots, Bitmap, TooBig, Added, Used, Got, Addr, Layout, Within, OwnersKept, OneEach, Stuck, LogGains,
           Need, Covered;
      ghost var s0, lh0 := Now(), lh;
      SlotsOf(s0, inum, bn);
      out, addr := AddDirect(NDIRECT);
      WithinIndirect(sb, Now(), inum, bn, lh0, lh);
      if out != Done {
        if out == OutOfBlocks {
          StuckAtOnce(s0, inum, bn);
        }
        return;
      }
      ghost var s1, lh1, b1 := Now(), lh, addr;
      AddedIndirect(sb, s0, s1, inum, b1, bn);
      SlotsOf(s1, inum, bn);
      out, addr := AddEntry(bn);
      OwnersTwice(s0, s1, Now());
      WithinTwice(sb, s1, Now(), inum, bn, bn + 1, bn, bn + 1, lh0, lh1, lh);
      if out == Done {
        GotTwo(sb, s0, s1, Now(), inum, bn, b1, addr);
        AddedOwner(s0, s1, inum, INDIRECT, b1);
        GainsBoth(sb, s0, s1, Now(), inum, bn, b1, addr, lh0, lh1, lh);
      } else if out == OutOfBlocks {
        StuckHalfway(s0, inum, bn, b1);
      }
    }

    lemma AddedOwner(s: State, s': State, i: nat, k: nat, b: nat)
      requires Layout(sb) && |s.disk| == sb.size && i < |s.itab| == sb.ninodes && Added(sb, s, s', i, k, b)
      ensures s'.owner == s.owner[b := Slot(i, k)]
    {
    }

    lemma StuckAtOnce(s0: State, i: nat, k: nat)
      requires Inv(sb, s0) && Now() == s0 && i < |itab| && k < MAXFILE && Addr(s0, i, k) == 0
      requires forall c: nat :: c < sb.size ==> Used(sb, disk, c)
      ensures Stuck(sb, s0, Now(), i, Need(s0, i, k, k + 1)) && SameBytes(s0, Now(), i)
    {
      hide Used, Addr, Owned, Slots;
      OthersSelf(sb, s0, i);
      assert Missing(s0, i, k, k) == 0;
    }

    /** The indirect block was the last free one. */
    lemma StuckHalfway(s0: State, i: nat, k: nat, b: nat)
      requires Inv(sb, s0) && Inv(sb, Now()) && i < |itab| && NDIRECT <= k < MAXFILE && b !in s0.owner
      requires Addr(s0, i, k) == 0 && Addr(s0, i, INDIRECT) == 0 && Added(sb, s0, Now(), i, INDIRECT, b)
      requires forall c: nat :: c < sb.size ==> Used(sb, disk, c)
      ensures Stuck(sb, s0, Now(), i, Need(s0, i, k, k + 1)) && SameBytes(s0, Now(), i)
    {
      hide Used, Addr, Owned, Slots, Bitmap, ByteAt, Synced;
      assert Missing(s0, i, k, k) == 0;
    }

    /** The body of writei's loop: bmap, memmove into the buffer, log_write. */
    method WritePart(src: seq<Byte>, off: nat) returns (out: Outcome)
      requires Valid() && |src| > 0 && off % BSIZE + |src| <= BSIZE && off + |src| <= MAXFILE * BSIZE
      modifies this`disk, this`ip, this`lh, this`itab, this`owner
      ensures NoRepeats(lh) && inum < |itab| && OwnersKept(old(Now()), Now()) && OneEach(owner)
      ensures out == Done || out == OutOfBlocks || out == LogFull
      ensures out == Done ==> Valid() && Written(sb, old(Now()), Now(), inum, src, off, off / BSIZE + 1)
      ensures out == Done ==> LogGains(sb, old(Now()), Now(), inum, off / BSIZE, off / BSIZE + 1, old(lh), lh)
      ensures out == OutOfBlocks ==>
                Stuck(sb, old(Now()), Now(), inum, Need(old(Now()), inum, off / BSIZE, off / BSIZE + 1))
      ensures out == OutOfBlocks ==> SameBytes(old(Now()), Now(), inum)
      ensures out == LogFull ==> TooBig(|lh|, nlog)
      ensures Within(sb, Now(), inum, off / BSIZE, off / BSIZE + 1, old(lh), lh)
    {
      hide Owned, Slots, Bitmap, TooBig, Used, Got, Addr, Within, Written, Overlay, ByteAt, OneEach, Stuck, LogGains,
           Need, OwnersKept, SameBytes, OthersKept, SameHead, MapSame, Covered;
      ghost var s0, lh0 := Now(), lh;
      InvOneEach(sb, s0);
      var addr;
      out, addr := Bmap(off / BSIZE);
      if out != Done {
        return;
      }
      ghost var s1, lh1 := Now(), lh;
      SlotBlock(sb, s1, inum, off / BSIZE);
      GotFacts(s0, inum, off / BSIZE);
      var data := Overlay(disk[addr], src, off % BSIZE);
      disk := disk[addr := data];
      WrittenPart(sb, s0, s1, Now(), inum, src, off);
      BitmapSame(sb, s1, Now());
      WrittenFacts(sb, s0, Now(), inum, src, off, off / BSIZE + 1);
      var ok := LogWrite(addr);
      WithinOne(sb, s1, Now(), inum, off / BSIZE, lh0, lh1, lh, addr);
      if !ok {
        return LogFull;
      }
      CoveredMore(start, s1.disk, disk, lh1, lh, addr);
      GainsData(sb, s0, s1, inum, off / BSIZE, lh0, lh1, lh, addr);
      SameOwnersLog(sb, s0, s1, Now(), inum, off / BSIZE, off / BSIZE + 1, lh0, lh);
    }

    lemma GotFacts(s0: State, i: nat, k: nat)
      requires Layout(sb) && |s0.disk| == sb.size && i < |s0.itab| == sb.ninodes && k < MAXFILE
      requires Got(sb, s0, Now(), i, k, k + 1)
      ensures |itab| == |s0.itab| && |disk| == |s0.disk|
    {
      hide Addr, ByteAt, Synced, Owned, Slots;
    }

    /** Copies the inode in memory to its place on disk. */
    method Iupdate() returns (out: Outcome)
      requires Layout(sb) && |disk| == sb.size && inum < sb.ninodes && NoRepeats(lh) && Covered(start, disk, lh)
      modifies this`disk, this`lh
      ensures out == Done ==> Covered(start, disk, lh)
      ensures disk == old(disk)[IBlock(sb, inum) := PutInode(old(disk)[IBlock(sb, inum)], inum % IPB, ip)]
      ensures NoRepeats(lh) && (out == Done || (out == LogFull && TooBig(|lh|, nlog)))
      ensures out == LogFull <==> TooBig(|old(lh)|, nlog)
      ensures forall c :: c in lh ==> c in old(lh) || c == IBlock(sb, inum)
      ensures out == Done ==> forall c :: c in lh <==> c in old(lh) || c == IBlock(sb, inum)
    {
      LayoutFacts();
      var ib := IBlock(sb, inum);
      disk := disk[ib := PutInode(disk[ib], inum % IPB, ip)];
      var ok := LogWrite(ib);
      if ok {
        CoveredMore(start, old(disk), disk, old(lh), lh, ib);
      }
      out := if ok then Done else LogFull;
    }

    /** What is left for files to own is less than what filling blocks `from..to` takes. */
    ghost predicate TooFew(from: nat, to: nat)
      reads this
      requires inum < |itab| && to <= MAXFILE
    {
      |owner| + Need(Now(), inum, from, to) > sb.size - sb.nmeta
    }

    /**
     Writes `src` to the file at `off`.  The drivers of devices answer as `devsw` says.
     The file may have holes.
     */
    method Writei(src: seq<Byte>, off: Uint, devsw: seq<Option<int>>) returns (out: Outcome, r: int)
      requires Valid() && ip.size <= MAXFILE * BSIZE && |src| < UINT_LIMIT && |devsw| == NDEV
      modifies this`disk, this`ip, this`lh, this`itab, this`owner
      ensures NoRepeats(lh) && inum < |itab| && OneEach(owner)
      ensures old(ip).kind % 0x1_0000 == 3 ==>
                var major := old(ip).kind / 0x1_0000;
                && out == Done && r == (if major < 10 && devsw[major].Some? then devsw[major].value else -1)
                && Now() == old(Now()) && ip == old(ip) && lh == old(lh)
      ensures old(ip).kind % 0x1_0000 != 3 && (off > old(ip).size || off + |src| > MAXFILE * BSIZE) ==>
                out == Done && r == -1 && Now() == old(Now()) && ip == old(ip) && lh == old(lh)
      ensures out == Done ==> Valid()
      ensures old(ip).kind % 0x1_0000 != 3 && off <= old(ip).size && off + |src| <= MAXFILE * BSIZE ==>
                && End(off, |src|) <= MAXFILE
                && (out == Done ==> r == |src| && Spliced(sb, old(Now()), Now(), inum, src, off))
                && (out == Done ==> LogOfWrite(sb, old(Now()), Now(), inum, src, off, old(lh), lh))
                && (out == OutOfBlocks ==>
                      && Stuck(sb, old(Now()), Now(), inum, Need(old(Now()), inum, off / BSIZE, End(off, |src|)))
                      && SameBefore(old(Now()), Now(), inum, off))
                && (out != LogFull ==> (out == OutOfBlocks <==> old(TooFew(off / BSIZE, End(off, |src|)))))
                && Within(sb, Now(), inum, off / BSIZE, End(off, |src|), old(lh), lh)
      ensures out == Done || out == OutOfBlocks || out == LogFull
      ensures out == LogFull ==> TooBig(|lh|, nlog)
    {
      hide Bitmap, Owned, Slots, TooBig, Within, Spliced, OneEach, Stuck, SameBefore, LogOfWrite, Need, Covered, End;
      InvOneEach(sb, Now());
      if ip.kind % 0x1_0000 == T_DEV {
        var major := Short(ip.kind / 0x1_0000);
        if major < 0 || major >= NDEV || devsw[major].None? {
          return Done, -1;
        }
        return Done, devsw[major].value;
      }
      var n := |src|;
      if off > ip.size || (off + n) % UINT_LIMIT < off {
        return Done, -1;
      }
      if (off + n) % UINT_LIMIT > MAXFILE * BSIZE {
        return Done, -1;
      }
      EndBound(off, n, n);
      out := WriteRange(src, off);
      r := if out == Done then n else 0;
    }

    /** writei within the longest file: the loop, and the inode if the file has grown. */
    method WriteRange(src: seq<Byte>, off: Uint) returns (out: Outcome)
      requires Valid() && off <= ip.size <= MAXFILE * BSIZE && off + |src| <= MAXFILE * BSIZE
      requires End(off, |src|) <= MAXFILE
      modifies this`disk, this`ip, this`lh, this`itab, this`owner
      ensures NoRepeats(lh) && inum < |itab| && OneEach(owner)
      ensures out == Done ==> Valid() && Spliced(sb, old(Now()), Now(), inum, src, off)
      ensures out == Done ==> LogOfWrite(sb, old(Now()), Now(), inum, src, off, old(lh), lh)
      ensures out == OutOfBlocks ==>
                && Stuck(sb, old(Now()), Now(), inum, Need(old(Now()), inum, off / BSIZE, End(off, |src|)))
                && SameBefore(old(Now()), Now(), inum, off)
      ensures out != LogFull ==> (out == OutOfBlocks <==> old(TooFew(off / BSIZE, End(off, |src|))))
      ensures Within(sb, Now(), inum, off / BSIZE, End(off, |src|), old(lh), lh)
      ensures out == Done || out == OutOfBlocks || out == LogFull
      ensures out == LogFull ==> TooBig(|lh|, nlog)
    {
      hide Bitmap, Owned, Slots, TooBig, Used, Within, OwnersKept, Written, Spliced, OneEach, Stuck, SameBefore,
           LogGains, LogOfWrite, Need, Covered;
      ghost var s0, lh0 := Now(), lh;
      InvOneEach(sb, s0);
      var n := |src|;
      out := WriteAll(src, off);
      if out != Done {
        if out == OutOfBlocks {
          StuckFull(sb, s0, Now(), inum, Need(s0, inum, off / BSIZE, End(off, n)));
        }
        return;
      }
      ghost var s1, lh1 := Now(), lh;
      WrittenFacts(sb, s0, s1, inum, src, off, End(off, n));
      OwnedCount(sb, s1);
      var end := off + n;
      if n > 0 && end > ip.size {
        ip := ip.(size := end);
        itab := itab[inum := ip];
        out := Iupdate();
        WithinInode(sb, s1, Now(), inum, off / BSIZE, End(off, n), lh0, lh1, lh);
        if out == Done {
          SplicedGrown(sb, s0, s1, Now(), inum, src, off);
          SplicedOwners(sb, s0, Now(), inum, src, off);
          InodeMap(sb, s1, Now(), inum);
          LogOfGrown(sb, s0, s1, Now(), inum, src, off, lh0, lh1, lh);
        }
      } else {
        SplicedInPlace(sb, s0, s1, inum, src, off);
        LogOfSame(sb, s0, s1, inum, src, off, lh0, lh);
      }
    }

    /** writei's loop. */
    method WriteAll(src: seq<Byte>, off: nat) returns (out: Outcome)
      requires Valid() && off + |src| <= MAXFILE * BSIZE && End(off, |src|) <= MAXFILE
      modifies this`disk, this`ip, this`lh, this`itab, this`owner
      ensures NoRepeats(lh) && inum < |itab| && OneEach(owner)
      ensures out == Done || out == OutOfBlocks || out == LogFull
      ensures out == Done ==> Valid() && Written(sb, old(Now()), Now(), inum, src, off, End(off, |src|))
      ensures out == Done ==> LogGains(sb, old(Now()), Now(), inum, off / BSIZE, End(off, |src|), old(lh), lh)
      ensures out == OutOfBlocks ==>
                && Stuck(sb, old(Now()), Now(), inum, Need(old(Now()), inum, off / BSIZE, End(off, |src|)))
                && SameBefore(old(Now()), Now(), inum, off)
      ensures out == LogFull ==> TooBig(|lh|, nlog)
      ensures Within(sb, Now(), inum, off / BSIZE, End(off, |src|), old(lh), lh)
    {
      hide TooBig, Used, Within, OwnersKept, Written, Bitmap, Owned, Slots, OneEach, Stuck, SameBefore, LogGains, Need,
           SameBytes, Covered;
      ghost var s0, lh0 := Now(), lh;
      InvOneEach(sb, s0);
      var n, tot, o := |src|, 0, off;
      WrittenNone(sb, s0, inum, src, off);
      WithinStart(sb, s0, inum, off / BSIZE, End(off, 0), lh);
      LogGainsNone(sb, s0, inum, off / BSIZE, lh);
      while tot < n
        invariant 0 <= tot <= n && o == off + tot && Valid() && inum == old(inum) && End(off, tot) <= MAXFILE
        invariant Written(sb, s0, Now(), inum, src[..tot], off, End(off, tot)) && |itab| == |s0.itab|
        invariant OwnersKept(s0, Now()) && OneEach(owner)
        invariant Within(sb, Now(), inum, off / BSIZE, End(off, tot), lh0, lh)
        invariant LogGains(sb, s0, Now(), inum, off / BSIZE, End(off, tot), lh0, lh)
      {
        ghost var s1, lh1 := Now(), lh;
        var m := if n - tot < BSIZE - o % BSIZE then n - tot else BSIZE - o % BSIZE;
        EndNext(off, tot, m);
        EndBound(off, tot + m, n);
        out := WritePart(src[tot..tot + m], o);
        OwnersTwice(s0, s1, Now());
        WithinTwice(sb, s1, Now(), inum, off / BSIZE, End(off, tot), o / BSIZE, End(off, tot + m), lh0, lh1, lh);
        if out != Done {
          WithinWider(sb, Now(), inum, off / BSIZE, End(off, tot + m), End(off, n), lh0, lh);
          if out == OutOfBlocks {
            StuckSize(sb, s1, Now(), inum, Need(s1, inum, o / BSIZE, o / BSIZE + 1));
            StuckPart(sb, s0, s1, Now(), inum, src[..tot], off, tot, m, n);
          }
          return;
        }
        PartAdded(sb, s0, s1, Now(), inum, src, off, tot, m, lh0, lh1, lh);
        tot, o := tot + m, o + m;
      }
      assert src[..tot] == src;
      out := Done;
    }

    /** The body of readi's loop: bmap and memmove out of the buffer. */
    method ReadPart(o: nat, m: nat) returns (out: Outcome, t: seq<Byte>)
      requires Valid() && 0 < m && o % BSIZE + m <= BSIZE && o + m <= MAXFILE * BSIZE
      modifies this`disk, this`ip, this`lh, this`itab, this`owner
      ensures NoRepeats(lh) && inum < |itab| && (out == Done || out == OutOfBlocks || out == LogFull)
      ensures Addr(old(Now()), inum, o / BSIZE) != 0 ==>
                out == Done && Now() == old(Now()) && ip == old(ip) && lh == old(lh)
      ensures out == Done ==> Valid() && Got(sb, old(Now()), Now(), inum, o / BSIZE, o / BSIZE + 1)
      ensures out == Done ==> |t| == m && forall y: nat :: y < m ==> t[y] == ByteAt(Now(), inum, o + y)
      ensures out == OutOfBlocks ==>
                Stuck(sb, old(Now()), Now(), inum, Need(old(Now()), inum, o / BSIZE, o / BSIZE + 1))
      ensures out == LogFull ==> TooBig(|lh|, nlog)
      ensures OwnersKept(old(Now()), Now()) && OneEach(owner)
      ensures Within(sb, Now(), inum, o / BSIZE, o / BSIZE + 1, old(lh), lh)
    {
      hide Bitmap, Owned, Slots, TooBig, Used, Got, Addr, Within, OwnersKept, ByteAt, Stuck, LogGains, OneEach, Need,
           Covered;
      t := [];
      var addr;
      out, addr := Bmap(o / BSIZE);
      if out != Done {
        return;
      }
      SlotBlock(sb, Now(), inum, o / BSIZE);
      t := disk[addr][o % BSIZE..o % BSIZE + m];
      forall y: nat | y < m ensures t[y] == ByteAt(Now(), inum, o + y) {
        BlockByte(Now(), inum, o / BSIZE, o % BSIZE + y);
        assert o + y == o / BSIZE * BSIZE + (o % BSIZE + y);
      }
    }

    /**
     Reads up to `n` bytes of the file from `off`.  The drivers answer as `devsw` says.  Holes in
     the range are filled with zeroed blocks on the way, so the call changes nothing exactly if
     there are none; and what it fills is not written to the inode on disk.
     */
    method Readi(off: Uint, n: Uint, devsw: seq<Option<(int, seq<Byte>)>>)
      returns (out: Outcome, r: int, dst: seq<Byte>)
      requires Valid() && ip.size <= MAXFILE * BSIZE && |devsw| == NDEV
      modifies this`disk, this`ip, this`lh, this`itab, this`owner
      ensures old(ip).kind % 0x1_0000 == 3 ==>
                var major := old(ip).kind / 0x1_0000;
                && out == Done && Now() == old(Now()) && ip == old(ip) && lh == old(lh)
                && (r, dst) == if major < 10 && devsw[major].Some? then devsw[major].value else (-1, [])
      ensures old(ip).kind % 0x1_0000 != 3 && (off > old(ip).size || off + n >= 0x1_0000_0000) ==>
                out == Done && r == -1 && dst == [] && Now() == old(Now()) && ip == old(ip) && lh == old(lh)
      ensures old(ip).kind % 0x1_0000 != 3 && off <= old(ip).size && off + n < 0x1_0000_0000 ==>
                var len := Min(off + n, old(ip).size) - off;
                && off + len <= MAXFILE * BSIZE && End(off, len) <= MAXFILE
                && (out == Done ==>
                      && r == len && dst == Contents(old(Now()), inum)[off..off + len]
                      && ReadDone(sb, old(Now()), Now(), inum, off / BSIZE, End(off, len)))
                && (out == OutOfBlocks ==>
                      Stuck(sb, old(Now()), Now(), inum, Need(old(Now()), inum, off / BSIZE, End(off, len))))
                && (out != LogFull ==> (out == OutOfBlocks <==> old(TooFew(off / BSIZE, End(off, len)))))
                && (Need(old(Now()), inum, off / BSIZE, End(off, len)) == 0 ==>
                      out == Done && Now() == old(Now()) && ip == old(ip) && lh == old(lh))
                && OneEach(owner) && Within(sb, Now(), inum, off / BSIZE, End(off, len), old(lh), lh)
      ensures NoRepeats(lh) && (out == Done ==> Valid())
      ensures out == Done || out == OutOfBlocks || (out == LogFull && TooBig(|lh|, nlog))
    {
      hide Bitmap, Owned, Slots, Contents, Addr, TooBig, Stuck, ReadDone, Need, Within, OneEach, Covered;
      dst := [];
      if ip.kind % 0x1_0000 == T_DEV {
        var major := Short(ip.kind / 0x1_0000);
        if major < 0 || major >= NDEV || devsw[major].None? {
          return Done, -1, dst;
        }
        return Done, devsw[major].value.0, devsw[major].value.1;
      }
      if off > ip.size || (off + n) % UINT_LIMIT < off {
        return Done, -1, dst;
      }
      var len := if (off + n) % UINT_LIMIT > ip.size then ip.size - off else n;
      EndBound(off, len, len);
      out, dst := ReadRange(off, len);
      r := len;
    }

    /** readi within the file. */
    method ReadRange(off: nat, len: nat) returns (out: Outcome, dst: seq<Byte>)
      requires Valid() && off + len <= ip.size <= MAXFILE * BSIZE && End(off, len) <= MAXFILE
      modifies this`disk, this`ip, this`lh, this`itab, this`owner
      ensures out == Done ==> Valid() && dst == Contents(old(Now()), inum)[off..off + len]
      ensures out == Done ==> ReadDone(sb, old(Now()), Now(), inum, off / BSIZE, End(off, len))
      ensures out == OutOfBlocks ==>
                Stuck(sb, old(Now()), Now(), inum, Need(old(Now()), inum, off / BSIZE, End(off, len)))
      ensures out != LogFull ==> (out == OutOfBlocks <==> old(TooFew(off / BSIZE, End(off, len))))
      ensures Need(old(Now()), inum, off / BSIZE, End(off, len)) == 0 ==>
                out == Done && Now() == old(Now()) && ip == old(ip) && lh == old(lh)
      ensures out == Done || out == OutOfBlocks || (out == LogFull && TooBig(|lh|, nlog))
      ensures NoRepeats(lh) && OneEach(owner) && Within(sb, Now(), inum, off / BSIZE, End(off, len), old(lh), lh)
    {
      hide Bitmap, Owned, Slots, Synced, Contents, ByteAt, Addr, TooBig, Used, Stuck, Got, ReadDone, Need, Within,
           OneEach, Covered;
      ghost var s0 := Now();
      out, dst := ReadAll(off, len);
      if out == Done {
        ReadEnds(sb, s0, Now(), inum, off / BSIZE, End(off, len));
        OwnedCount(sb, Now());
        ContentsSlice(s0, inum, off, off + len, dst);
      } else if out == OutOfBlocks {
        StuckFull(sb, s0, Now(), inum, Need(s0, inum, off / BSIZE, End(off, len)));
      }
    }

    /** readi's loop. */
    method ReadAll(off: nat, len: nat) returns (out: Outcome, dst: seq<Byte>)
      requires Valid() && off + len <= MAXFILE * BSIZE && End(off, len) <= MAXFILE
      modifies this`disk, this`ip, this`lh, this`itab, this`owner
      ensures out == Done || out == OutOfBlocks || (out == LogFull && TooBig(|lh|, nlog))
      ensures out == Done ==> Valid() && |dst| == len && Got(sb, old(Now()), Now(), inum, off / BSIZE, End(off, len))
      ensures out == Done ==> forall y: nat :: y < len ==> dst[y] == ByteAt(old(Now()), inum, off + y)
      ensures out == OutOfBlocks ==>
                Stuck(sb, old(Now()), Now(), inum, Need(old(Now()), inum, off / BSIZE, End(off, len)))
      ensures Need(old(Now()), inum, off / BSIZE, End(off, len)) == 0 ==>
                out == Done && Now() == old(Now()) && ip == old(ip) && lh == old(lh)
      ensures NoRepeats(lh) && OneEach(owner) && Within(sb, Now(), inum, off / BSIZE, End(off, len), old(lh), lh)
    {
      hide Bitmap, Owned, Slots, ByteAt, Addr, TooBig, Used, Stuck, Got, Need, Within, OwnersKept, OneEach, Covered;
      dst := [];
      ghost var s0, lh0 := Now(), lh;
      InvOneEach(sb, s0);
      WithinStart(sb, s0, inum, off / BSIZE, End(off, 0), lh);
      var tot, o := 0, off;
      GotNone(sb, s0, inum, off / BSIZE);
      while tot < len
        invariant 0 <= tot <= len && o == off + tot && |dst| == tot && Valid() && inum == old(inum)
        invariant |itab| == |s0.itab| && End(off, tot) <= MAXFILE
        invariant Got(sb, s0, Now(), inum, off / BSIZE, End(off, tot)) && OwnersKept(s0, Now()) && OneEach(owner)
        invariant Within(sb, Now(), inum, off / BSIZE, End(off, tot), lh0, lh)
        invariant forall y: nat :: y < tot ==> dst[y] == ByteAt(s0, inum, off + y)
        invariant Need(s0, inum, off / BSIZE, End(off, len)) == 0 ==> Now() == s0 && ip == old(ip) && lh == old(lh)
      {
        var m := if len - tot < BSIZE - o % BSIZE then len - tot else BSIZE - o % BSIZE;
        EndNext(off, tot, m);
        EndBound(off, tot + m, len);
        ghost var s1, lh1 := Now(), lh;
        NeedNone(s0, inum, off / BSIZE, End(off, len), o / BSIZE);
        var part;
        out, part := ReadPart(o, m);
        OwnersTwice(s0, s1, Now());
        WithinTwice(sb, s1, Now(), inum, off / BSIZE, End(off, tot), o / BSIZE, End(off, tot + m), lh0, lh1, lh);
        if out != Done {
          WithinWider(sb, Now(), inum, off / BSIZE, End(off, tot + m), End(off, len), lh0, lh);
          if out == OutOfBlocks {
            StuckRead(sb, s0, s1, Now(), inum, off, tot, m, len);
          }
          return;
        }
        GotTwice(sb, s0, s1, Now(), inum, off / BSIZE, End(off, tot), o / BSIZE, End(off, tot + m));
        GotBytes(sb, s0, Now(), inum, off / BSIZE, End(off, tot + m));
        forall y: nat | y < tot + m ensures (dst + part)[y] == ByteAt(s0, inum, off + y) {
          if y >= tot {
            assert part[y - tot] == ByteAt(Now(), inum, o + (y - tot));
          }
        }
        dst := dst + part;
        tot, o := tot + m, o + m;
      }
      out := Done;
    }

    /** Marks a block free. */
    method Bfree(b: nat) returns (out: Outcome)
      requires Layout(sb) && |disk| == sb.size && b < sb.size && NoRepeats(lh) && Covered(start, disk, lh)
      modifies this`disk, this`lh
      ensures out == Done ==> Covered(start, disk, lh)
      ensures NoRepeats(lh) && (out == Done || out == FreeingFree || out == LogFull)
      ensures out == FreeingFree <==> !Used(sb, old(disk), b)
      ensures out == LogFull <==> Used(sb, old(disk), b) && TooBig(|old(lh)|, nlog)
      ensures out == FreeingFree ==> disk == old(disk)
      ensures out != FreeingFree ==> SameOutside(sb, old(disk), disk, {})
      ensures out != FreeingFree ==> forall c: nat :: c < sb.size ==>
                (Used(sb, disk, c) <==> c != b && Used(sb, old(disk), c))
      ensures if out == Done then forall c: nat :: c in lh <==> c in old(lh) || c == BBlock(sb, b) else lh == old(lh)
    {
      hide Bit, ClearBit, TooBig, Covered;
      LayoutFacts();
      var bb := BBlock(sb, b);
      if !Bit(disk[bb], b % BPB) {
        return FreeingFree;
      }
      ghost var disk0 := disk;
      disk := disk[bb := ClearBit(disk[bb], b % BPB)];
      forall c: nat | c < sb.size ensures Used(sb, disk, c) <==> c != b && Used(sb, disk0, c) {
        if BBlock(sb, c) == bb {
          assert c % BPB == b % BPB ==> c == b;
        }
      }
      var ok := LogWrite(bb);
      if ok {
        CoveredMore(start, disk0, disk, old(lh), lh, bb);
      }
      out := if ok then Done else LogFull;
    }

    /** Frees the block in slot k, if there is one. */
    method FreeSlot(ghost s0: State, ghost lh0: seq<Uint>, k: nat, b: nat) returns (out: Outcome)
      requires Inv(sb, s0) && inum < |s0.itab| && k <= INDIRECT && b == Addr(s0, inum, k)
      requires Freed(sb, s0, disk, inum, k) && FreeLog(sb, s0, inum, k, lh0, lh) && Covered(start, disk, lh)
      modifies this`disk, this`lh
      ensures out == Done || (out == LogFull && TooBig(FreeSize(sb, s0, inum, k, lh0), nlog))
      ensures out == Done ==> Freed(sb, s0, disk, inum, k + 1) && FreeLog(sb, s0, inum, k + 1, lh0, lh)
      ensures out == Done ==> Covered(start, disk, lh)
    {
      hide Addr, Used, Bitmap, Owned, Slots, Freed, FreeLog, FreeSize, TooBig, Covered;
      FreedNext(sb, s0, disk, inum, k);
      FreeLogSize(sb, s0, inum, k, lh0, lh);
      ghost var disk0, lh1 := disk, lh;
      if b == 0 {
        FreeLogNext(sb, s0, inum, k, lh0, lh1, lh);
        return Done;
      }
      FreedSize(sb, s0, disk, inum, k);
      out := Bfree(b);
      FreedMore(sb, s0, disk0, disk, inum, k);
      if out == Done {
        FreeLogNext(sb, s0, inum, k, lh0, lh1, lh);
      }
    }

    /** itrunc's first loop. */
    method FreeDirect() returns (out: Outcome)
      requires Valid()
      modifies this`disk, this`ip, this`lh
      ensures out == Done || (out == LogFull && TooBig(FreeSize(sb, old(Now()), inum, INDIRECT + 1, old(lh)), nlog))
      ensures out == Done ==> Freed(sb, old(Now()), disk, inum, NDIRECT) && SameHead(old(ip), ip)
      ensures out == Done ==> FreeLog(sb, old(Now()), inum, NDIRECT, old(lh), lh) && Covered(start, disk, lh)
      ensures out == Done ==> forall m: nat :: m <= NDIRECT ==>
                ip.addrs[m] == if m < NDIRECT then 0 else old(ip).addrs[m]
    {
      hide Addr, Used, Bitmap, Owned, Slots, Freed, TooBig, FreeLog, FreeSize, Covered;
      ghost var s0, lh0 := Now(), lh;
      FreedStart(sb, s0, inum);
      FreeLogStart(sb, s0, inum, lh0);
      var i := 0;
      while i < NDIRECT
        invariant i <= NDIRECT && Freed(sb, s0, disk, inum, i) && SameHead(old(ip), ip)
        invariant FreeLog(sb, s0, inum, i, lh0, lh) && Covered(start, disk, lh)
        invariant forall m: nat :: m <= NDIRECT ==> ip.addrs[m] == if m < i then 0 else old(ip).addrs[m]
      {
        SlotsOf(s0, inum, i);
        out := FreeSlot(s0, lh0, i, ip.addrs[i]);
        if out != Done {
          FullAtEnd(sb, s0, inum, i, INDIRECT + 1, lh0, nlog);
          return;
        }
        if ip.addrs[i] != 0 {
          ip := ip.(addrs := ip.addrs[i := 0]);
        }
        i := i + 1;
      }
      out := Done;
    }

    /** itrunc's second loop and the indirect block. */
    method FreeIndirect(ghost s0: State, ghost lh0: seq<Uint>, ind: nat) returns (out: Outcome)
      requires Inv(sb, s0) && inum < |s0.itab| && Freed(sb, s0, disk, inum, NDIRECT)
      requires ind == Addr(s0, inum, INDIRECT) != 0 && FreeLog(sb, s0, inum, NDIRECT, lh0, lh)
      requires Covered(start, disk, lh)
      modifies this`disk, this`lh
      ensures out == Done || (out == LogFull && TooBig(FreeSize(sb, s0, inum, INDIRECT + 1, lh0), nlog))
      ensures out == Done ==> Freed(sb, s0, disk, inum, INDIRECT + 1) && FreeLog(sb, s0, inum, INDIRECT + 1, lh0, lh)
      ensures out == Done ==> Covered(start, disk, lh)
    {
      hide Addr, Used, Bitmap, Owned, Slots, Freed, TooBig, FreeLog, FreeSize, Covered;
      IndirectKept(sb, s0, disk, inum, NDIRECT);
      var a := disk[ind];
      var j := 0;
      while j < NINDIRECT
        invariant j <= NINDIRECT && Freed(sb, s0, disk, inum, NDIRECT + j)
        invariant FreeLog(sb, s0, inum, NDIRECT + j, lh0, lh) && Covered(start, disk, lh)
      {
        SlotsOf(s0, inum, NDIRECT + j);
        out := FreeSlot(s0, lh0, NDIRECT + j, Word(a, j));
        if out != Done {
          FullAtEnd(sb, s0, inum, NDIRECT + j, INDIRECT + 1, lh0, nlog);
          return;
        }
        j := j + 1;
      }
      out := FreeSlot(s0, lh0, INDIRECT, ind);
      if out != Done {
        FullAtEnd(sb, s0, inum, INDIRECT, INDIRECT + 1, lh0, nlog);
      }
    }

    /**
     Discards the file's contents.  It logs the inode's block and the map blocks of the file's blocks,
     and is stopped exactly if the list is too long with the map blocks alone.
     */
    method Itrunc() returns (out: Outcome)
      requires Valid()
      modifies this`disk, this`ip, this`lh, this`itab, this`owner
      ensures out == Done || out == LogFull
      ensures out == LogFull <==> TooBig(FreeSize(sb, old(Now()), inum, INDIRECT + 1, old(lh)), nlog)
      ensures out == Done ==>
                Valid() && FileOk(sb, Now(), inum) && ip.size == 0 && OthersKept(sb, old(Now()), Now(), inum)
      ensures out == Done ==> forall b: nat :: b < sb.size ==>
                (Used(sb, disk, b) <==> Used(sb, old(disk), b) && !OwnedBy(old(Now()), inum, b))
      ensures out == Done ==> owner == Disowned(old(owner), inum)
      ensures out == Done ==> forall c: nat :: c in lh <==>
                c in old(lh) || c in MapsOf(sb, old(Now()), inum, INDIRECT + 1) || c == IBlock(sb, inum)
    {
      hide Addr, Used, Bitmap, Owned, Slots, Freed, TooBig, OthersKept, FileOk, Disowned, FreeLog, FreeSize, MapsOf,
           Covered;
      ghost var s0, lh0 := Now(), lh;
      SlotsOf(s0, inum, 0);
      out := FreeDirect();
      if out != Done {
        return;
      }
      if ip.addrs[NDIRECT] != 0 {
        out := FreeIndirect(s0, lh0, ip.addrs[NDIRECT]);
        if out != Done {
          return;
        }
        ip := ip.(addrs := ip.addrs[NDIRECT := 0]);
      } else {
        FreedRest(sb, s0, disk, inum);
        FreeLogRest(sb, s0, inum, lh0, lh);
      }
      ip := ip.(size := 0);
      itab := itab[inum := ip];
      owner := Disowned(owner, inum);
      ghost var s1 := Now();
      TruncatedInv(sb, s0, s1, inum);
      FreedSize(sb, s0, disk, inum, INDIRECT + 1);
      FreeLogSize(sb, s0, inum, INDIRECT + 1, lh0, lh);
      ghost var lh1 := lh;
      out := Iupdate();
      if out == Done {
        Truncated(sb, s0, s1, Now(), inum);
        FreeLogEnds(sb, s0, inum, lh0, lh1, lh);
      }
    }

    lemma LayoutFacts()
      requires Layout(sb) && |disk| == sb.size
      ensures sb.size < UINT_LIMIT
      ensures forall b: nat :: b < sb.size ==> BBlock(sb, b) < |disk| && MapBlock(sb, BBlock(sb, b))
      ensures forall j: nat :: j < sb.ninodes ==> IBlock(sb, j) < |disk|
    {
    }
  }
}
