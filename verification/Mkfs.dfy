/**
 The initial image of a file system (mkfs.c): a root directory and the given files, laid
 out one after the other from the first data block on.
 */
module Mkfs {

  import opened Basics
  import opened Blocks
  import opened Dirents
  import opened FileState
  import opened FileContents

  const FSSIZE: nat := 1000
  const NINODES: nat := 200
  const LOG: nat := 30
  const INODESTART: nat := 2 + LOG
  const BMAPSTART: nat := INODESTART + NINODES / IPB + 1
  const LAYOUT: Super := Super(FSSIZE, NINODES, INODESTART, BMAPSTART, BMAPSTART + FSSIZE / BPB + 1)
  const ROOTINO: nat := 1

  /** How a step ends: normally, in iappend's assertion, or with an image that has outgrown the disk. */
  datatype Result = Built | TooLong | DoesNotFit

  const ZERO_INODE: Inode := Inode(0, 0, 0, ZeroAddrs())

  function ZeroAddrs(): (a: Addrs)
    ensures forall i :: 0 <= i < 13 ==> a[i] == 0
  {
    seq(13, _ => 0)
  }

  /** Rounding the root directory's size up to the next block leaves a hole exactly if it filled its last block. */
  lemma RoundedRoot(s: State, s': State, i: nat, len: nat)
    requires i < |s.itab| == |s'.itab| && Tight(s, i, len)
    requires forall k: nat :: k <= INDIRECT ==> Addr(s', i, k) == Addr(s, i, k)
    ensures Tight(s', i, (len / BSIZE + 1) * BSIZE) <==> len % BSIZE != 0
  {
    hide Addr;
    var len' := (len / BSIZE + 1) * BSIZE;
    if len % BSIZE == 0 {
      var k := len / BSIZE;
      assert k < MAXFILE ==> Addr(s, i, k) == 0 && k * BSIZE < len';
    } else {
      forall k: nat | k < MAXFILE ensures k * BSIZE < len <==> k * BSIZE < len' {
      }
    }
  }

  lemma TightSame(s: State, s': State, i: nat, len: nat)
    requires i < |s.itab| == |s'.itab| && Tight(s, i, len)
    requires forall k: nat :: k <= INDIRECT ==> Addr(s', i, k) == Addr(s, i, k)
    ensures Tight(s', i, len)
  {
    hide Addr;
  }

  /** Past its end a file shows nothing but zeroes. */
  ghost predicate ZeroTail(s: State, i: nat, len: nat)
    requires i < |s.itab|
  {
    forall x: nat :: len <= x < MAXFILE * BSIZE ==> ByteAt(s, i, x) == 0
  }

  lemma EmptyFile(s: State, i: nat)
    requires i < |s.itab| && s.itab[i].size == 0 && forall m: nat :: m <= NDIRECT ==> s.itab[i].addrs[m] == 0
    ensures forall k: nat :: k <= INDIRECT ==> Addr(s, i, k) == 0
    ensures Tight(s, i, 0) && ZeroTail(s, i, 0)
  {
  }

  lemma OthersTail(s: State, s': State, i: nat, j: nat)
    requires Owners(LAYOUT, s) && OthersKept(LAYOUT, s, s', i) && j < NINODES && j != i
    requires ZeroTail(s, j, s.itab[j].size)
    ensures |s'.itab| == NINODES && s'.itab[j].size == s.itab[j].size && ZeroTail(s', j, s'.itab[j].size)
  {
    hide Addr, ByteAt, Synced, Owned, Slots;
  }

  lemma SameTail(s: State, s': State, i: nat, len: nat)
    requires i < |s.itab| == |s'.itab| && SameBytes(s, s', i) && ZeroTail(s, i, len)
    ensures ZeroTail(s', i, len)
  {
    hide ByteAt;
  }

  lemma ZeroHolds(k: nat)
    requires k < IPB
    ensures Holds(ZERO_BLOCK, k, ZERO_INODE)
  {
    forall j | 0 <= j < 16 ensures Word(ZERO_BLOCK, 16 * k + j) == Words(ZERO_INODE)[j] {
      ZeroWord(16 * k + j);
    }
  }

  /** With zeroed inodes nobody owns a block, and every file is empty and in order. */
  lemma EmptyImage(s: State)
    requires |s.disk| == FSSIZE && s.owner == map[] && |s.itab| == NINODES
    requires forall b: nat :: 2 <= b < FSSIZE ==> s.disk[b] == ZERO_BLOCK
    requires forall i: nat :: i < NINODES ==> s.itab[i] == ZERO_INODE
    ensures Owners(LAYOUT, s)
    ensures forall i: nat :: i < NINODES ==> FileOk(LAYOUT, s, i) && ZeroTail(s, i, 0)
  {
    forall i: nat | i < NINODES
      ensures FileOk(LAYOUT, s, i) && ZeroTail(s, i, 0) && forall k: nat :: k <= INDIRECT ==> Addr(s, i, k) == 0
    {
      EmptyFile(s, i);
      ZeroHolds(i % IPB);
    }
  }

  /** The log is all zeroes, so its header lists nothing. */
  ghost predicate LogZero(disk: seq<Block>) {
    |disk| == FSSIZE && forall b: nat :: 2 <= b < INODESTART ==> disk[b] == ZERO_BLOCK
  }

  /** The words of the super block: sizes in blocks and inodes, and where the log, the inodes and the map begin. */
  ghost predicate SuperOk(disk: seq<Block>) {
    && |disk| == FSSIZE && disk[0] == ZERO_BLOCK
    && Word(disk[1], 0) == 1000 && Word(disk[1], 1) == 941 && Word(disk[1], 2) == 200 && Word(disk[1], 3) == 30
    && Word(disk[1], 4) == 2 && Word(disk[1], 5) == 32 && Word(disk[1], 6) == 58
    && forall j: nat :: 7 <= j < WORDS ==> Word(disk[1], j) == 0
  }

  lemma SuperWritten(disk: seq<Block>)
    requires |disk| == FSSIZE && disk[0] == ZERO_BLOCK
    requires disk[1] == PutWords(ZERO_BLOCK, 0, [FSSIZE, FSSIZE - LAYOUT.nmeta, NINODES, LOG, 2, LAYOUT.inodestart,
                                                 LAYOUT.bmapstart])
    ensures SuperOk(disk)
  {
    hide Word, PutWords;
    forall j: nat | 7 <= j < WORDS ensures Word(disk[1], j) == 0 {
      ZeroWord(j);
    }
  }

  /** The layout as the kernel reads it from the super block. */
  function ReadSuper(b: Block): Super {
    var size, nblocks := Word(b, 0), Word(b, 1);
    Super(size, Word(b, 2), Word(b, 5), Word(b, 6), if nblocks <= size then size - nblocks else 0)
  }

  lemma SuperReads(disk: seq<Block>)
    requires SuperOk(disk)
    ensures ReadSuper(disk[1]) == LAYOUT
  {
  }

  /** The blocks below `free` are the files', and those after them are still zeroed, as is the log. */
  ghost predicate Packed(s: State, free: nat) {
    && LAYOUT.nmeta <= free <= FSSIZE == |s.disk|
    && (forall b :: b in s.owner <==> LAYOUT.nmeta <= b < free)
    && (forall b: nat :: free <= b < FSSIZE ==> s.disk[b] == ZERO_BLOCK)
    && LogZero(s.disk) && SuperOk(s.disk)
  }

  /** So the blocks given out are counted by `free`. */
  lemma PackedCount(s: State, free: nat)
    requires Packed(s, free)
    ensures |s.owner| == free - LAYOUT.nmeta
  {
    var all := Range(LAYOUT.nmeta, free);
    forall b ensures b in s.owner.Keys <==> b in all {
    }
    assert s.owner.Keys == all;
    assert |s.owner| == |s.owner.Keys|;
  }

  class Image {
    var disk: seq<Block>
    var freeinode: nat
    var freeblock: nat
    ghost var itab: seq<Inode>
    ghost var owner: map<nat, Slot>

    ghost function Now(): State
      reads this
    {
      State(disk, itab, owner)
    }

    ghost predicate Valid()
      reads this
    {
      Owners(LAYOUT, Now()) && Packed(Now(), freeblock)
    }

    /** All files are in order, and the inodes from `freeinode` on are unused. */
    ghost predicate AllOk()
      reads this
      requires Valid()
    {
      && (forall i: nat :: i < NINODES ==> FileOk(LAYOUT, Now(), i) && ZeroTail(Now(), i, itab[i].size))
      && (forall i: nat :: freeinode <= i < NINODES ==> itab[i] == ZERO_INODE)
    }

    /** Zeroed sectors and the super block. */
    constructor ()
      ensures Valid() && AllOk() && freeinode == 1 && freeblock == LAYOUT.nmeta
    {
      hide SuperOk, FileOk, ZeroTail, PutWords, Owned, Slots;
      var nblocks := FSSIZE - LAYOUT.nmeta;
      disk := seq(FSSIZE, _ => ZERO_BLOCK)
        [1 := PutWords(ZERO_BLOCK, 0, [FSSIZE, nblocks, NINODES, LOG, 2, LAYOUT.inodestart, LAYOUT.bmapstart])];
      freeinode, freeblock := 1, LAYOUT.nmeta;
      itab, owner := seq(NINODES, _ => ZERO_INODE), map[];
      new;
      EmptyImage(Now());
      SuperWritten(disk);
    }

    /** Writes an inode to its place; its block addresses are those the image already has. */
    method Winode(i: nat, ino: Inode)
      requires Valid() && i < NINODES && ino.addrs == itab[i].addrs
      modifies this`disk, this`itab
      ensures Valid() && itab == old(itab)[i := ino] && Synced(LAYOUT, Now(), i)
      ensures OthersKept(LAYOUT, old(Now()), Now(), i) && SameBytes(old(Now()), Now(), i)
      ensures forall m: nat :: m <= INDIRECT ==> Addr(Now(), i, m) == Addr(old(Now()), i, m)
    {
      hide Owned, Slots, Addr, ByteAt, Synced, PutInode, OthersKept, SameBytes;
      var ib := IBlock(LAYOUT, i);
      disk := disk[ib := PutInode(disk[ib], i % IPB, ino)];
      itab := itab[i := ino];
      InodeWritten(LAYOUT, old(Now()), Now(), i);
    }

    /** The next inode, for an empty file with one link. */
    method Ialloc(kind: nat) returns (r: Result, inum: nat)
      requires Valid() && AllOk() && kind < 0x1_0000 && freeinode > 0
      modifies this`disk, this`itab, this`freeinode
      ensures r == if old(freeinode) < NINODES then Built else DoesNotFit
      ensures r == Built ==> Valid() && AllOk() && inum == old(freeinode) < NINODES && freeinode == inum + 1
      ensures r == Built ==> OthersKept(LAYOUT, old(Now()), Now(), inum)
      ensures r == Built ==> itab[inum] == Inode(kind, 0x1_0000, 0, ZeroAddrs())
    {
      hide Owned, Slots, OthersKept, Synced, Packed;
      inum := freeinode;
      if inum >= NINODES {
        return DoesNotFit, inum;
      }
      freeinode := freeinode + 1;
      EmptyFile(Now(), inum);
      ghost var s0 := Now();
      Winode(inum, Inode(kind, 0x1_0000, 0, ZeroAddrs()));
      SameTail(s0, Now(), inum, 0);
      AllStillOk(s0, inum);
      r := Built;
    }

    /** When one file has changed and is in order, all are. */
    lemma AllStillOk(s0: State, i: nat)
      requires Owners(LAYOUT, s0) && Valid() && i < NINODES && OthersKept(LAYOUT, s0, Now(), i)
      requires forall j: nat :: j < NINODES && j != i ==> FileOk(LAYOUT, s0, j) && ZeroTail(s0, j, s0.itab[j].size)
      requires Synced(LAYOUT, Now(), i) && Tight(Now(), i, itab[i].size) && ZeroTail(Now(), i, itab[i].size)
      ensures forall j: nat :: j < NINODES ==> FileOk(LAYOUT, Now(), j) && ZeroTail(Now(), j, itab[j].size)
    {
      hide Owned, Slots, Packed, Addr, ByteAt, Synced, Tight, OthersKept, ZeroTail;
      forall j: nat | j < NINODES ensures FileOk(LAYOUT, Now(), j) && ZeroTail(Now(), j, itab[j].size) {
        if j != i {
          OthersOk(LAYOUT, s0, Now(), i, j);
          OthersTail(s0, Now(), i, j);
        }
      }
    }

    /** freeblock++, for one of the inode's own addresses. */
    method NewDirect(i: nat, din: Inode, at: nat) returns (r: Result, din': Inode)
      requires Valid() && i < NINODES && itab[i] == din && at <= NDIRECT && din.addrs[at] == 0
      modifies this`freeblock, this`itab, this`owner
      ensures r == if old(freeblock) < FSSIZE then Built else DoesNotFit
      ensures r == Built ==> freeblock == old(freeblock) + 1 && old(freeblock) !in old(owner)
      ensures r == Built ==> Valid() && itab[i] == din' && din' == din.(addrs := din.addrs[at := old(freeblock)])
      ensures r == Built ==> Added(LAYOUT, old(Now()), Now(), i, SlotOf(at), old(freeblock)) && old(freeblock) > 0
    {
      hide Owned, Slots, Added;
      if freeblock >= FSSIZE {
        return DoesNotFit, din;
      }
      ghost var s0 := Now();
      din' := din.(addrs := din.addrs[at := freeblock]);
      itab, owner := itab[i := din'], owner[freeblock := Slot(i, SlotOf(at))];
      AddedDirect(LAYOUT, s0, Now(), i, SlotOf(at), freeblock);
      assert Owners(LAYOUT, Now()) by { AddedSlot(LAYOUT, s0, Now(), i, SlotOf(at), freeblock); }
      freeblock := freeblock + 1;
      r := Built;
    }

    /** freeblock++, for an entry of the indirect block. */
    method NewEntry(i: nat, din: Inode, k: nat) returns (r: Result, x: nat)
      requires Valid() && i < NINODES && itab[i] == din && NDIRECT <= k < MAXFILE
      requires Addr(Now(), i, k) == 0 && Addr(Now(), i, INDIRECT) != 0
      modifies this`disk, this`freeblock, this`owner
      ensures r == if old(freeblock) < FSSIZE then Built else DoesNotFit
      ensures r == Built ==> x == old(freeblock) && x !in old(owner) && freeblock == old(freeblock) + 1
      ensures r == Built ==> Valid() && Added(LAYOUT, old(Now()), Now(), i, k, x) && x > 0
    {
      hide Owned, Slots, Added, Addr, SetWord;
      x := freeblock;
      if freeblock >= FSSIZE {
        return DoesNotFit, x;
      }
      ghost var s0 := Now();
      var ind := din.addrs[NDIRECT];
      assert Addr(s0, i, INDIRECT) == ind by { SlotsOf(s0, i, k); }
      SlotBlock(LAYOUT, s0, i, INDIRECT);
      disk := disk[ind := SetWord(disk[ind], k - NDIRECT, x)];
      owner := owner[x := Slot(i, k)];
      AddedEntry(LAYOUT, s0, Now(), i, k, x, s0.disk);
      assert Owners(LAYOUT, Now()) by { AddedSlot(LAYOUT, s0, Now(), i, k, x); }
      freeblock := freeblock + 1;
      r := Built;
    }

    /** The block for the file's block `fbn`, given out if there is none. */
    method Place(i: nat, din: Inode, fbn: nat) returns (r: Result, x: nat, din': Inode)
      requires Valid() && i < NINODES && itab[i] == din && fbn < MAXFILE
      modifies this`disk, this`freeblock, this`itab, this`owner
      ensures r == if old(freeblock) + Need(old(Now()), i, fbn, fbn + 1) <= FSSIZE then Built else DoesNotFit
      ensures r == Built ==> Valid() && itab[i] == din' && Got(LAYOUT, old(Now()), Now(), i, fbn, fbn + 1)
      ensures r == Built ==> freeblock == old(freeblock) + Need(old(Now()), i, fbn, fbn + 1)
      ensures r == Built ==> x == Addr(Now(), i, fbn) != 0
      ensures Addr(old(Now()), i, fbn) != 0 ==> r == Built && Now() == old(Now()) && freeblock == old(freeblock)
    {
      hide Owned, Slots, Added, Addr, Got, Packed;
      ghost var s0 := Now();
      din' := din;
      SlotsOf(s0, i, fbn);
      PackedSize(s0, freeblock);
      assert Missing(s0, i, fbn, fbn) == 0;
      if fbn < NDIRECT {
        if din.addrs[fbn] == 0 {
          r, din' := NewDirect(i, din, fbn);
          if r == Built {
            GotOne(LAYOUT, s0, Now(), i, fbn, old(freeblock));
            SlotsOf(Now(), i, fbn);
          }
          return r, din'.addrs[fbn], din';
        }
        GotNothing(LAYOUT, s0, i, fbn);
        return Built, din.addrs[fbn], din;
      }
      ghost var b1 := 0;
      if din.addrs[NDIRECT] == 0 {
        b1 := freeblock;
        r, din' := NewDirect(i, din, NDIRECT);
        if r != Built {
          return r, 0, din';
        }
        AddedIndirect(LAYOUT, s0, Now(), i, b1, fbn);
      }
      ghost var s1 := Now();
      SlotsOf(s1, i, fbn);
      SlotBlock(LAYOUT, s1, i, INDIRECT);
      x := Word(disk[din'.addrs[NDIRECT]], fbn - NDIRECT);
      if x == 0 {
        r, x := NewEntry(i, din', fbn);
        if r == Built {
          assert x == Addr(Now(), i, fbn) by { AddedSlot(LAYOUT, s1, Now(), i, fbn, x); }
          if b1 == 0 {
            GotOne(LAYOUT, s0, Now(), i, fbn, x);
          } else {
            GotTwo(LAYOUT, s0, s1, Now(), i, fbn, b1, x);
          }
        }
        return r, x, din';
      }
      GotNothing(LAYOUT, s0, i, fbn);
      r := Built;
    }

    /** The body of iappend's loop. */
    method AppendPart(i: nat, din: Inode, src: seq<Byte>, off: nat) returns (r: Result, din': Inode)
      requires Valid() && i < NINODES && itab[i] == din && |src| > 0
      requires off % BSIZE + |src| <= BSIZE && off < MAXFILE * BSIZE
      modifies this`disk, this`freeblock, this`itab, this`owner
      ensures r == if old(freeblock) + Need(old(Now()), i, off / BSIZE, off / BSIZE + 1) <= FSSIZE then Built
                   else DoesNotFit
      ensures r == Built ==> Valid() && itab[i] == din'
      ensures r == Built ==> Written(LAYOUT, old(Now()), Now(), i, src, off, off / BSIZE + 1)
      ensures r == Built ==> freeblock == old(freeblock) + Need(old(Now()), i, off / BSIZE, off / BSIZE + 1)
    {
      hide Owned, Slots, Addr, Got, Written, Overlay, Need;
      ghost var s0 := Now();
      var x;
      r, x, din' := Place(i, din, off / BSIZE);
      if r != Built {
        return;
      }
      ghost var s1 := Now();
      SlotBlock(LAYOUT, s1, i, off / BSIZE);
      disk := disk[x := Overlay(disk[x], src, off % BSIZE)];
      WrittenPart(LAYOUT, s0, s1, Now(), i, src, off);
      WrittenFacts(LAYOUT, s0, Now(), i, src, off, off / BSIZE + 1);
    }

    /** Reads an inode back from the image. */
    method Rinode(i: nat) returns (din: Inode)
      requires Valid() && i < NINODES && Synced(LAYOUT, Now(), i)
      ensures din == itab[i]
    {
      hide Owned, Slots, Packed, Holds;
      din := ReadInode(disk[IBlock(LAYOUT, i)], i % IPB);
    }

    /**
     Appends `src` to a file.  That ends in the assertion if the file would be too long and in an
     outgrown disk if the blocks run out first.
     */
    method Iappend(i: nat, src: seq<Byte>) returns (r: Result)
      requires Valid() && AllOk() && i < freeinode && i < NINODES
      modifies this`disk, this`freeblock, this`itab, this`owner
      ensures var len := old(itab)[i].size;
              && len <= MAXFILE * BSIZE
              && (r == Built <==>
                    && len + |src| <= MAXFILE * BSIZE
                    && old(freeblock) + TakenBy(len + |src|) - TakenBy(len) <= FSSIZE)
              && (r == TooLong ==> len + |src| > MAXFILE * BSIZE)
              && (r == DoesNotFit <==>
                    old(freeblock) + TakenBy(Min(len + |src|, MAXFILE * BSIZE)) - TakenBy(len) > FSSIZE)
              && (r == Built ==> freeblock == old(freeblock) + TakenBy(len + |src|) - TakenBy(len))
              && (r == Built ==> |itab| == NINODES && itab[i].size == len + |src| && itab[i].kind == old(itab)[i].kind)
      ensures r == Built ==> Valid() && AllOk() && OthersKept(LAYOUT, old(Now()), Now(), i)
      ensures r == Built ==> Bytes(Now(), i) == Bytes(old(Now()), i) + src
    {
      hide Owned, Slots, Packed, Addr, ByteAt, Written, OthersKept, Synced, Tight, Need, TakenBy, End;
      ghost var s0 := Now();
      assert FileOk(LAYOUT, s0, i);
      FileSize(LAYOUT, s0, i);
      var din := Rinode(i);
      r, din := AppendAll(i, din, src);
      if r != Built {
        return;
      }
      ghost var s1 := Now();
      din := din.(size := din.size + |src|);
      Winode(i, din);
      Appended(s0, s1, Now(), i, src);
      AllStillOk(s0, i);
      OthersZero(s0, Now(), i);
    }

    /** iappend's loop. */
    method AppendAll(i: nat, din: Inode, src: seq<Byte>) returns (r: Result, din': Inode)
      requires Valid() && i < NINODES && itab[i] == din && Tight(Now(), i, din.size) && din.size <= MAXFILE * BSIZE
      modifies this`disk, this`freeblock, this`itab, this`owner
      ensures r == Built <==>
                && din.size + |src| <= MAXFILE * BSIZE
                && old(freeblock) + TakenBy(din.size + |src|) - TakenBy(din.size) <= FSSIZE
      ensures r == TooLong ==> din.size + |src| > MAXFILE * BSIZE
      ensures r == DoesNotFit <==>
                old(freeblock) + TakenBy(Min(din.size + |src|, MAXFILE * BSIZE)) - TakenBy(din.size) > FSSIZE
      ensures r == Built ==>
                && Valid() && itab[i] == din' && SameHead(din, din') && End(din.size, |src|) <= MAXFILE
                && Written(LAYOUT, old(Now()), Now(), i, src, din.size, End(din.size, |src|))
                && freeblock == old(freeblock) + TakenBy(din.size + |src|) - TakenBy(din.size)
    {
      hide Owned, Slots, Packed, Addr, ByteAt, Written, OthersKept, Tight, Need, TakenBy, End;
      ghost var s0 := Now();
      din' := din;
      WrittenNone(LAYOUT, s0, i, src, din.size);
      var tot, start, off := 0, din.size, din.size;
      PackedSize(s0, freeblock);
      EndBound(start, 0, 0);
      while tot < |src|
        invariant tot <= |src| && off == start + tot && start + tot <= MAXFILE * BSIZE && freeblock <= FSSIZE
        invariant Valid() && itab[i] == din' && End(start, tot) <= MAXFILE && SameHead(din, din')
        invariant Written(LAYOUT, s0, Now(), i, src[..tot], start, End(start, tot))
        invariant freeblock == old(freeblock) + TakenBy(start + tot) - TakenBy(start)
      {
        var fbn := off / BSIZE;
        if fbn >= MAXFILE {
          return TooLong, din';
        }
        var n1 := if |src| - tot < (fbn + 1) * BSIZE - off then |src| - tot else (fbn + 1) * BSIZE - off;
        r, din' := AppendNext(i, din', src, s0, start, tot, n1);
        if r != Built {
          TakenByGrows(start + tot + n1, Min(start + |src|, MAXFILE * BSIZE));
          return;
        }
        tot, off := tot + n1, off + n1;
      }
      assert src[..tot] == src;
      r := Built;
    }

    /** One round of the loop: the next `m` bytes, which end in the block they start in. */
    method AppendNext(i: nat, din: Inode, src: seq<Byte>, ghost s0: State, start: nat, tot: nat, m: nat)
      returns (r: Result, din': Inode)
      requires Valid() && i < NINODES && itab[i] == din && Owners(LAYOUT, s0) && Tight(s0, i, start)
      requires tot + m <= |src| && 0 < m && (start + tot) % BSIZE + m <= BSIZE && start + tot + m <= MAXFILE * BSIZE
      requires End(start, tot) <= MAXFILE && Written(LAYOUT, s0, Now(), i, src[..tot], start, End(start, tot))
      modifies this`disk, this`freeblock, this`itab, this`owner
      ensures End(start, tot + m) <= MAXFILE
      ensures r == if old(freeblock) + TakenBy(start + tot + m) - TakenBy(start + tot) <= FSSIZE then Built
                   else DoesNotFit
      ensures r == Built ==>
                && Valid() && itab[i] == din' && SameHead(din, din')
                && Written(LAYOUT, s0, Now(), i, src[..tot + m], start, End(start, tot + m))
                && freeblock == old(freeblock) + TakenBy(start + tot + m) - TakenBy(start + tot) <= FSSIZE
    {
      hide Owned, Slots, Packed, Addr, ByteAt, Written, OthersKept, Tight, Need, TakenBy, End;
      ghost var s1 := Now();
      EndNext(start, tot, m);
      AppendNeed(s0, s1, i, src[..tot], start, tot, m);
      r, din' := AppendPart(i, din, src[tot..tot + m], start + tot);
      if r == Built {
        WrittenFacts(LAYOUT, s1, Now(), i, src[tot..tot + m], start + tot, End(start, tot + m));
        WrittenTwice(LAYOUT, s0, s1, Now(), i, src, start, tot, m, End(start, tot), End(start, tot + m));
        PackedSize(Now(), freeblock);
      }
    }

    /** What the next part takes, as a difference in the blocks of the file. */
    lemma AppendNeed(s0: State, s1: State, i: nat, src: seq<Byte>, start: nat, tot: nat, m: nat)
      requires Owners(LAYOUT, s0) && i < NINODES && |src| == tot && 0 < m && (start + tot) % BSIZE + m <= BSIZE
      requires start + tot + m <= MAXFILE * BSIZE && End(start, tot) <= MAXFILE && |s1.itab| == |s0.itab|
      requires Tight(s0, i, start) && Written(LAYOUT, s0, s1, i, src, start, End(start, tot))
      ensures (start + tot) / BSIZE < MAXFILE && End(start, tot + m) <= MAXFILE
      ensures Need(s1, i, (start + tot) / BSIZE, (start + tot) / BSIZE + 1) ==
                TakenBy(start + tot + m) - TakenBy(start + tot)
    {
      hide Owned, Slots, Addr, ByteAt, OthersKept, Synced, Tight, Need, Placed, TakenBy, Laid;
      EndNext(start, tot, m);
      NeedTight(s0, i, start, start, tot);
      NeedTight(s0, i, start, start, tot + m);
      NeedOneMore(s0, s1, i, start / BSIZE, End(start, tot), (start + tot) / BSIZE);
    }

    lemma OthersZero(s0: State, s: State, i: nat)
      requires Owners(LAYOUT, s0) && OthersKept(LAYOUT, s0, s, i)
      ensures forall j: nat :: j < NINODES && j != i ==> s.itab[j] == s0.itab[j]
    {
      hide Addr, ByteAt, Synced;
    }

    /** Rounds the root directory's size up to whole blocks. */
    method FixRoot()
      requires Valid() && AllOk()
      modifies this`disk, this`itab
      ensures Valid() && OthersKept(LAYOUT, old(Now()), Now(), ROOTINO) && SameBytes(old(Now()), Now(), ROOTINO)
      ensures itab[ROOTINO].size == (old(itab)[ROOTINO].size / BSIZE + 1) * BSIZE && Synced(LAYOUT, Now(), ROOTINO)
      ensures FileOk(LAYOUT, Now(), ROOTINO) <==> old(itab)[ROOTINO].size % BSIZE != 0
      ensures Tight(Now(), ROOTINO, old(itab)[ROOTINO].size) && itab[ROOTINO].kind == old(itab)[ROOTINO].kind
      ensures ZeroTail(Now(), ROOTINO, old(itab)[ROOTINO].size)
    {
      hide Owned, Slots, Packed, Addr, Synced, Tight, OthersKept, SameBytes, ZeroTail;
      ghost var s0 := Now();
      assert FileOk(LAYOUT, s0, ROOTINO);
      FileSize(LAYOUT, s0, ROOTINO);
      var din := Rinode(ROOTINO);
      var off := din.size;
      din := din.(size := (off / BSIZE + 1) * BSIZE);
      Winode(ROOTINO, din);
      RoundedRoot(s0, Now(), ROOTINO, off);
      SameTail(s0, Now(), ROOTINO, off);
      TightSame(s0, Now(), ROOTINO, off);
    }

    /** Marks the blocks below `used` in the free map. */
    method Balloc(used: nat)
      requires |disk| == FSSIZE && used < BPB
      modifies this`disk
      ensures |disk| == FSSIZE && disk == old(disk)[LAYOUT.bmapstart := disk[LAYOUT.bmapstart]]
      ensures forall j: nat :: j < BPB ==> (Bit(disk[LAYOUT.bmapstart], j) <==> j < used)
    {
      hide Bit, SetBit;
      var buf := ZERO_BLOCK;
      var i := 0;
      forall j: nat | j < BPB ensures !Bit(buf, j) {
        ZeroBit(j);
      }
      while i < used
        invariant i <= used && forall j: nat :: j < BPB ==> (Bit(buf, j) <==> j < i)
      {
        buf := SetBit(buf, i);
        i := i + 1;
      }
      disk := disk[LAYOUT.bmapstart := buf];
    }

    /**
     An empty file, its entry in the root directory, and its contents as they are read.  The image has
     an inode for it, its entry and contents are not too long, and both fit on the disk; or it is not built.
     */
    method AddFile(f: File) returns (r: Result)
      requires Valid() && AllOk() && ROOTINO < freeinode
      modifies this`disk, this`freeblock, this`freeinode, this`itab, this`owner
      ensures var len := old(itab)[ROOTINO].size;
              && (r == Built <==>
                    && old(freeinode) < NINODES && len + 16 <= MAXFILE * BSIZE && |Flat(f.pieces)| <= MAXFILE * BSIZE
                    && old(freeblock) + TakenBy(len + 16) - TakenBy(len) + TakenBy(|Flat(f.pieces)|) <= FSSIZE)
              && (r == Built ==>
                    && freeblock == old(freeblock) + TakenBy(len + 16) - TakenBy(len) + TakenBy(|Flat(f.pieces)|)
                    && |itab| == NINODES && itab[ROOTINO].size == len + 16)
      ensures r == Built ==> Valid() && AllOk() && freeinode == old(freeinode) + 1
      ensures r == Built ==> itab[ROOTINO].kind == old(itab)[ROOTINO].kind
      ensures r == Built ==>
                Bytes(Now(), ROOTINO) == Bytes(old(Now()), ROOTINO) + Dirent(old(freeinode), Stripped(f.name))
      ensures r == Built ==> IsFile(Now(), old(freeinode), Flat(f.pieces))
      ensures r == Built ==> forall j: nat :: j < old(freeinode) && j != ROOTINO ==> SameFile(old(Now()), Now(), j)
    {
      hide Owned, Slots, Packed, FileOk, OthersKept, Bytes, Dirent, TakenBy, Flat, SameHead;
      ghost var s0 := Now();
      var inum;
      r, inum := Ialloc(T_FILE);
      if r != Built {
        return;
      }
      ghost var s1 := Now();
      OthersBytes(s0, s1, inum);
      OthersZero(s0, s1, inum);
      assert SameFile(s0, s1, ROOTINO);
      NewBytes(s1, inum);
      var name := if f.name != [] && f.name[0] == UNDERSCORE then f.name[1..] else f.name;
      r := Iappend(ROOTINO, Dirent(inum, name));
      if r != Built {
        return;
      }
      ghost var s2 := Now();
      OthersBytes(s1, s2, ROOTINO);
      OthersZero(s1, s2, ROOTINO);
      assert SameFile(s1, s2, inum);
      r := AddPieces(inum, f.pieces);
      if r == Built {
        OthersBytes(s2, Now(), inum);
        OthersZero(s2, Now(), inum);
        assert SameFile(s2, Now(), ROOTINO);
        forall j: nat | j < inum && j != ROOTINO ensures SameFile(s0, Now(), j) {
          assert SameFile(s0, s1, j) && SameFile(s1, s2, j) && SameFile(s2, Now(), j);
        }
      }
    }

    /** The contents of a file, as they are read. */
    method AddPieces(inum: nat, pieces: seq<seq<Byte>>) returns (r: Result)
      requires Valid() && AllOk() && inum < freeinode && inum < NINODES
      requires itab[inum].size == 0 && Bytes(Now(), inum) == []
      modifies this`disk, this`freeblock, this`itab, this`owner
      ensures r == Built <==>
                |Flat(pieces)| <= MAXFILE * BSIZE && old(freeblock) + TakenBy(|Flat(pieces)|) <= FSSIZE
      ensures r == Built ==> Valid() && AllOk() && freeblock == old(freeblock) + TakenBy(|Flat(pieces)|)
      ensures r == Built ==> OthersKept(LAYOUT, old(Now()), Now(), inum) && Bytes(Now(), inum) == Flat(pieces)
      ensures r == Built ==> itab[inum].kind == old(itab)[inum].kind
    {
      hide Owned, Slots, Packed, FileOk, OthersKept, Bytes, TakenBy, Flat, SameHead;
      ghost var s0 := Now();
      var c := 0;
      assert Flat(pieces[..0]) == [] && TakenBy(0) == 0 by { FlatNone(pieces); }
      OthersSelf(LAYOUT, s0, inum);
      PackedSize(s0, freeblock);
      while c < |pieces|
        invariant c <= |pieces| && Valid() && AllOk() && itab[inum].kind == s0.itab[inum].kind
        invariant itab[inum].size == |Flat(pieces[..c])| <= MAXFILE * BSIZE
        invariant freeblock == old(freeblock) + TakenBy(|Flat(pieces[..c])|) <= FSSIZE
        invariant OthersKept(LAYOUT, s0, Now(), inum) && Bytes(Now(), inum) == Flat(pieces[..c])
      {
        ghost var s1 := Now();
        r := Iappend(inum, pieces[c]);
        FlatNext(pieces, c);
        if r != Built {
          FlatLonger(pieces, c + 1);
          TakenByGrows(|Flat(pieces[..c + 1])|, |Flat(pieces)|);
          return;
        }
        OthersTwice(LAYOUT, s0, s1, Now(), inum);
        c := c + 1;
      }
      assert pieces[..c] == pieces;
      r := Built;
    }

    /** The root directory, with its entries for itself: for these there is always room. */
    method Root() returns (r: Result)
      requires Valid() && AllOk() && freeinode == 1 && freeblock == LAYOUT.nmeta
      modifies this`disk, this`freeblock, this`freeinode, this`itab, this`owner
      ensures r == Built && Valid() && AllOk() && freeinode == 2 && Bytes(Now(), ROOTINO) == Directory([])
      ensures freeblock == LAYOUT.nmeta + TakenBy(32) && itab[ROOTINO].size == 32 && itab[ROOTINO].kind == T_DIR
    {
      hide Owned, Slots, Packed, FileOk, OthersKept, Bytes, Dirent;
      var inum;
      r, inum := Ialloc(T_DIR);
      NewBytes(Now(), ROOTINO);
      r := Iappend(inum, Dirent(ROOTINO, [DOT]));
      r := Iappend(inum, Dirent(ROOTINO, [DOT, DOT]));
    }

    /**
     The image of the given files.  It is built if and only if there are inodes for them, none of them is
     too long, and their blocks and those of the root directory, indirect blocks included, fit on the disk.
     */
    method Build(files: seq<File>) returns (r: Result)
      requires Valid() && AllOk() && freeinode == 1 && freeblock == LAYOUT.nmeta
      modifies this
      ensures r == Built <==> Fits(files)
      ensures r == Built ==> Inv(LAYOUT, Now()) && |owner| == TakenBy(16 * (|files| + 2)) + Total(files)
      ensures r == Built ==> LogZero(disk) && SuperOk(disk)
      ensures r == Built ==> forall i: nat :: i < NINODES ==> Synced(LAYOUT, Now(), i)
      ensures r == Built ==> forall i: nat :: i < NINODES && i != ROOTINO ==> FileOk(LAYOUT, Now(), i)
      ensures r == Built ==> RootIs(Now(), files) && (FileOk(LAYOUT, Now(), ROOTINO) <==> (|files| + 2) % 32 != 0)
      ensures r == Built ==> forall j: nat :: j < |files| ==> IsFile(Now(), j + 2, Flat(files[j].pieces))
      ensures r == Built ==> Listed(Now(), 0, 1, [46]) && Listed(Now(), 1, 1, [46, 46])
      ensures r == Built ==>
                forall j: nat :: j < |files| ==>
                  var name := files[j].name;
                  Listed(Now(), j + 2, j + 2, if name != [] && name[0] == 95 then name[1..] else name)
    {
      hide Owned, Slots, Packed, FileOk, OthersKept, Bytes, Dirent, Synced, SameBytes, ByteAt, Directory, Flat, Total,
           TakenBy, Fits, RootIs, Listed, SuperOk, LogZero;
      r := Root();
      assert files[..0] == [];
      FitsNone();
      var n := 0;
      while n < |files|
        invariant n <= |files| && Valid() && AllOk() && freeinode == n + 2 <= NINODES
        invariant Bytes(Now(), ROOTINO) == Directory(files[..n])
        invariant itab[ROOTINO].size == 16 * (n + 2) && itab[ROOTINO].kind == T_DIR
        invariant freeblock == LAYOUT.nmeta + TakenBy(16 * (n + 2)) + Total(files[..n]) && Fits(files[..n])
        invariant forall j: nat :: j < n ==> IsFile(Now(), j + 2, Flat(files[j].pieces))
      {
        ghost var s1 := Now();
        r := AddFile(files[n]);
        FitsNext(files, n);
        if r != Built {
          if Fits(files) {
            FitsBefore(files, n + 1);
          }
          return;
        }
        FilesStay(s1, Now(), files, n);
        DirectoryNext(files, n);
        n := n + 1;
      }
      assert files[..n] == files;
      PackedCount(Now(), freeblock);
      ghost var s := Now();
      r := Finish(files);
      FilesStay(s, Now(), files, n);
      AllListed(Now(), files);
    }

    /** The last steps: the root's size and the free map. */
    method Finish(ghost files: seq<File>) returns (r: Result)
      requires Valid() && AllOk() && |files| + 2 <= NINODES && Bytes(Now(), ROOTINO) == Directory(files)
      requires itab[ROOTINO].kind == T_DIR
      modifies this`disk, this`itab
      ensures r == Built && Inv(LAYOUT, Now()) && LogZero(disk) && SuperOk(disk)
      ensures forall i: nat :: i < NINODES ==> Synced(LAYOUT, Now(), i)
      ensures forall i: nat :: i < NINODES && i != ROOTINO ==>
                FileOk(LAYOUT, Now(), i) && SameFile(old(Now()), Now(), i)
      ensures RootIs(Now(), files) && (FileOk(LAYOUT, Now(), ROOTINO) <==> (|files| + 2) % 32 != 0)
    {
      hide Owned, Slots, Synced, OthersKept, Bytes, SameBytes, ByteAt, Tight, Bitmap, Packed, Addr, ZeroTail, SuperOk,
           LogZero, RootIs, Directory;
      ghost var s0 := Now();
      RootBytes(s0, files);
      FixRoot();
      ghost var s1 := Now();
      OthersBytes(s0, s1, ROOTINO);
      forall i: nat | i < NINODES && i != ROOTINO ensures FileOk(LAYOUT, s1, i) {
        OthersOk(LAYOUT, s0, s1, ROOTINO, i);
      }
      PackedSize(s1, freeblock);
      Balloc(freeblock);
      MapWritten(s1, Now(), freeblock);
      LogStays(s1, Now(), freeblock);
      OthersBytes(s1, Now(), NINODES);
      FilesKept(s1, Now());
      forall i: nat | i < NINODES
        ensures Synced(LAYOUT, Now(), i) && (i != ROOTINO ==> FileOk(LAYOUT, Now(), i) && SameFile(s0, Now(), i))
      {
        assert i != ROOTINO ==> FileOk(LAYOUT, s1, i) && SameFile(s0, s1, i) && SameFile(s1, Now(), i);
      }
      RootLast(s0, s1, Now(), files);
      r := Built;
    }

    lemma RootLast(s0: State, s1: State, s': State, files: seq<File>)
      requires |s0.itab| == NINODES && Owners(LAYOUT, s1) && SameBytes(s0, s1, ROOTINO) && |files| + 2 <= NINODES
      requires forall x: nat :: x < |Directory(files)| ==>
                 x < MAXFILE * BSIZE && ByteAt(s0, ROOTINO, x) == Directory(files)[x]
      requires s1.itab[ROOTINO].size == (16 * (|files| + 2) / BSIZE + 1) * BSIZE && s1.itab[ROOTINO].kind == T_DIR
      requires Tight(s1, ROOTINO, 16 * (|files| + 2)) && OthersKept(LAYOUT, s1, s', NINODES)
      requires ZeroTail(s1, ROOTINO, 16 * (|files| + 2))
      ensures |s'.itab| == NINODES && RootIs(s', files)
    {
      hide ByteAt, Addr, Directory, Synced, Owned, Slots;
      TightSame(s1, s', ROOTINO, 16 * (|files| + 2));
      assert SameBytes(s1, s', ROOTINO);
      SameTail(s1, s', ROOTINO, 16 * (|files| + 2));
    }

    lemma OthersBytes(s: State, s': State, i: nat)
      requires Owners(LAYOUT, s) && OthersKept(LAYOUT, s, s', i)
      ensures |s'.itab| == NINODES && forall j: nat :: j < NINODES && j != i ==> SameFile(s, s', j)
    {
      hide Addr, ByteAt, Synced;
      forall j: nat | j < NINODES && j != i ensures SameFile(s, s', j) {
        assert s'.itab[j] == s.itab[j];
      }
    }

    lemma NewBytes(s: State, i: nat)
      requires i < |s.itab| && s.itab[i].size == 0
      ensures Bytes(s, i) == []
    {
    }
  }

  /** File i is a regular file with these bytes. */
  ghost predicate IsFile(s: State, i: nat, t: seq<Byte>) {
    i < |s.itab| && s.itab[i].kind == 2 && Bytes(s, i) == t
  }

  ghost predicate SameFile(s: State, s': State, i: nat) {
    i < |s.itab| == |s'.itab| && s'.itab[i].kind == s.itab[i].kind && Bytes(s', i) == Bytes(s, i)
  }

  lemma FilesStay(s: State, s': State, files: seq<File>, n: nat)
    requires n <= |files| && n + 2 <= NINODES == |s.itab|
    requires forall j: nat :: j < n ==> IsFile(s, j + 2, Flat(files[j].pieces))
    requires forall j: nat :: j < n + 2 && j != ROOTINO ==> SameFile(s, s', j)
    ensures forall j: nat :: j < n ==> IsFile(s', j + 2, Flat(files[j].pieces))
  {
    hide Bytes, Flat;
    forall j: nat | j < n ensures IsFile(s', j + 2, Flat(files[j].pieces)) {
      assert SameFile(s, s', j + 2);
    }
  }

  /** The root directory has its entries, blocks for these, and a size rounded up to the next whole block. */
  ghost predicate RootIs(s: State, files: seq<File>)
    requires |files| + 2 <= NINODES == |s.itab|
  {
    && s.itab[ROOTINO].kind == 1 && s.itab[ROOTINO].size == (16 * (|files| + 2) / BSIZE + 1) * BSIZE
    && Tight(s, ROOTINO, 16 * (|files| + 2)) && ZeroTail(s, ROOTINO, 16 * (|files| + 2))
    && forall x: nat :: x < |Directory(files)| ==> ByteAt(s, ROOTINO, x) == Directory(files)[x]
  }

  /** What the entries of the root directory are made from. */
  function EntryInum(e: nat): nat {
    if e < 2 then ROOTINO else e
  }

  function EntryName(files: seq<File>, e: nat): seq<Byte>
    requires e < |files| + 2
  {
    if e == 0 then [DOT] else if e == 1 then [DOT, DOT] else Stripped(files[e - 2].name)
  }

  lemma {:induction false} DirectoryAt(files: seq<File>, e: nat)
    requires |files| + 2 <= 0x1_0000 && e < |files| + 2
    ensures Directory(files)[16 * e..16 * e + 16] == Dirent(EntryInum(e), EntryName(files, e))
  {
    hide Dirent;
    if files == [] {
      assert Directory(files) == Dirent(ROOTINO, [DOT]) + Dirent(ROOTINO, [DOT, DOT]);
    } else {
      var before := files[..|files| - 1];
      assert Directory(files) == Directory(before) + Dirent(|files| + 1, Stripped(files[|files| - 1].name));
      if e < |files| + 1 {
        DirectoryAt(before, e);
        assert Directory(files)[16 * e..16 * e + 16] == Directory(before)[16 * e..16 * e + 16];
      }
    }
  }

  /** Entry `e` of the root directory reads as this inode number and this name. */
  ghost predicate Listed(s: State, e: nat, inum: nat, name: seq<Byte>)
    requires ROOTINO < |s.itab|
  {
    && 16 * e + 16 <= MAXFILE * BSIZE
    && ByteAt(s, ROOTINO, 16 * e) + 0x100 * ByteAt(s, ROOTINO, 16 * e + 1) == inum
    && forall k: nat :: k < 14 ==> ByteAt(s, ROOTINO, 16 * e + 2 + k) == if k < |Name(name)| then name[k] else 0
  }

  lemma RootListed(s: State, files: seq<File>, e: nat)
    requires |files| + 2 <= NINODES == |s.itab| && RootIs(s, files) && e < |files| + 2
    ensures Listed(s, e, EntryInum(e), EntryName(files, e))
  {
    hide ByteAt, Directory, Dirent, Tight, ZeroTail, Name, Inum, Field, EntryName, Listed;
    DirectoryAt(files, e);
    DirentReads(Directory(files), e, EntryInum(e), EntryName(files, e));
    ListedFrom(s, Directory(files), e, EntryInum(e), EntryName(files, e));
  }

  lemma ListedFrom(s: State, t: seq<Byte>, e: nat, inum: nat, name: seq<Byte>)
    requires ROOTINO < |s.itab| && 16 * e + 16 <= |t| <= MAXFILE * BSIZE
    requires forall x: nat :: x < |t| ==> ByteAt(s, ROOTINO, x) == t[x]
    requires Inum(t, e) == inum && forall k: nat :: k < 14 ==> Field(t, e)[k] == if k < |Name(name)| then name[k] else 0
    ensures Listed(s, e, inum, name)
  {
    hide ByteAt, Name;
    assert ByteAt(s, ROOTINO, 16 * e) == t[16 * e] && ByteAt(s, ROOTINO, 16 * e + 1) == t[16 * e + 1];
    forall k: nat | k < 14 ensures ByteAt(s, ROOTINO, 16 * e + 2 + k) == Field(t, e)[k] {
      assert Field(t, e)[k] == t[16 * e + 2 + k];
    }
  }

  lemma AllListed(s: State, files: seq<File>)
    requires |files| + 2 <= NINODES == |s.itab| && RootIs(s, files)
    ensures Listed(s, 0, 1, [46]) && Listed(s, 1, 1, [46, 46])
    ensures forall j: nat :: j < |files| ==>
              var name := files[j].name;
              Listed(s, j + 2, j + 2, if name != [] && name[0] == 95 then name[1..] else name)
  {
    hide Listed, RootIs;
    RootListed(s, files, 0);
    RootListed(s, files, 1);
    forall j: nat | j < |files| ensures Listed(s, j + 2, j + 2, Stripped(files[j].name)) {
      RootListed(s, files, j + 2);
    }
  }

  /** The root directory as a file, entry by entry; past the last file's entry there are only unused ones. */
  lemma RootContents(s: State, files: seq<File>, e: nat)
    requires |files| + 2 <= NINODES == |s.itab| && RootIs(s, files) && 16 * e + 16 <= s.itab[ROOTINO].size
    ensures s.itab[ROOTINO].size <= MAXFILE * BSIZE && |Contents(s, ROOTINO)| == s.itab[ROOTINO].size
    ensures var t := Contents(s, ROOTINO);
            if e < |files| + 2
            then Inum(t, e) == EntryInum(e) && Name(Field(t, e)) == Name(EntryName(files, e))
            else Inum(t, e) == 0
  {
    hide ByteAt, Directory, Dirent, Tight;
    ContentsSize(s, ROOTINO);
    var t := Contents(s, ROOTINO);
    if e < |files| + 2 {
      DirectoryAt(files, e);
      forall x: nat | 16 * e <= x < 16 * e + 16 ensures t[x] == Directory(files)[x] {
        assert t[x] == ByteAt(s, ROOTINO, x);
      }
      assert t[16 * e..16 * e + 16] == Directory(files)[16 * e..16 * e + 16];
      DirentReads(t, e, EntryInum(e), EntryName(files, e));
    } else {
      assert t[16 * e] == ByteAt(s, ROOTINO, 16 * e) && t[16 * e + 1] == ByteAt(s, ROOTINO, 16 * e + 1);
    }
  }

  /** Looking a name up in the root directory finds the first entry made from that name, and no other. */
  lemma RootFinds(s: State, files: seq<File>, name: seq<Byte>, e: nat)
    requires |files| + 2 <= NINODES == |s.itab| && RootIs(s, files) && 16 * e + 16 <= s.itab[ROOTINO].size
    ensures s.itab[ROOTINO].size <= MAXFILE * BSIZE && |Contents(s, ROOTINO)| == s.itab[ROOTINO].size
    ensures FirstMatch(Contents(s, ROOTINO), e, name) <==>
              && e < |files| + 2 && Name(EntryName(files, e)) == Name(name)
              && forall k: nat :: k < e ==> Name(EntryName(files, k)) != Name(name)
  {
    hide RootIs, Name, Contents, EntryName;
    RootContents(s, files, e);
    forall k: nat | k < e
      ensures Matches(Contents(s, ROOTINO), k, name) <==> k < |files| + 2 && Name(EntryName(files, k)) == Name(name)
    {
      RootContents(s, files, k);
    }
  }

  /** The blocks that the files take, their indirect blocks included. */
  function Total(files: seq<File>): nat {
    if files == [] then 0 else Total(files[..|files| - 1]) + TakenBy(|Flat(files[|files| - 1].pieces)|)
  }

  /** There are inodes and blocks for the files, and none is too long. */
  predicate Fits(files: seq<File>) {
    && |files| + 2 <= NINODES
    && (forall j: nat :: j < |files| ==> |Flat(files[j].pieces)| <= MAXFILE * BSIZE)
    && LAYOUT.nmeta + TakenBy(16 * (|files| + 2)) + Total(files) <= FSSIZE
  }

  lemma FitsNone()
    ensures Fits([]) && Total([]) == 0
  {
  }

  lemma FitsNext(files: seq<File>, n: nat)
    requires n < |files| && Fits(files[..n])
    ensures Total(files[..n + 1]) == Total(files[..n]) + TakenBy(|Flat(files[n].pieces)|)
    ensures Fits(files[..n + 1]) <==>
              && n + 2 < NINODES && |Flat(files[n].pieces)| <= MAXFILE * BSIZE
              && LAYOUT.nmeta + TakenBy(16 * (n + 3)) + Total(files[..n]) + TakenBy(|Flat(files[n].pieces)|) <= FSSIZE
  {
    hide Flat, TakenBy;
    var before, more := files[..n], files[..n + 1];
    assert more[..n] == before;
    forall j: nat | j < n ensures more[j] == before[j] {
    }
    assert Fits(more) ==> |Flat(more[n].pieces)| <= MAXFILE * BSIZE;
  }

  lemma {:induction false} TotalGrows(files: seq<File>, n: nat)
    requires n <= |files|
    ensures Total(files[..n]) <= Total(files)
  {
    hide Flat, TakenBy;
    if n == |files| {
      assert files[..n] == files;
    } else {
      var rest := files[..|files| - 1];
      assert rest[..n] == files[..n];
      TotalGrows(rest, n);
    }
  }

  lemma FitsBefore(files: seq<File>, n: nat)
    requires n <= |files| && Fits(files)
    ensures Fits(files[..n])
  {
    hide Flat, TakenBy, Total;
    TotalGrows(files, n);
    TakenByGrows(16 * (n + 2), 16 * (|files| + 2));
  }

  /** A file for the image: its name, and its contents in the pieces in which they are read. */
  datatype File = File(name: seq<Byte>, pieces: seq<seq<Byte>>)

  function Flat(ts: seq<seq<Byte>>): seq<Byte> {
    if ts == [] then [] else Flat(ts[..|ts| - 1]) + ts[|ts| - 1]
  }

  lemma FlatNext(ts: seq<seq<Byte>>, c: nat)
    requires c < |ts|
    ensures Flat(ts[..c + 1]) == Flat(ts[..c]) + ts[c]
  {
    assert ts[..c + 1][..c] == ts[..c];
  }

  lemma FlatNone(ts: seq<seq<Byte>>)
    ensures Flat(ts[..0]) == [] && TakenBy(0) == 0
  {
  }

  lemma {:induction false} FlatLonger(ts: seq<seq<Byte>>, c: nat)
    requires c <= |ts|
    ensures |Flat(ts[..c])| <= |Flat(ts)|
  {
    if c == |ts| {
      assert ts[..c] == ts;
    } else {
      var rest := ts[..|ts| - 1];
      assert rest[..c] == ts[..c];
      FlatLonger(rest, c);
    }
  }

  const DOT: Byte := 46
  const UNDERSCORE: Byte := 95

  /** The name that a file gets: without the underscore that the names of binaries begin with. */
  function Stripped(name: seq<Byte>): seq<Byte> {
    if name != [] && name[0] == UNDERSCORE then name[1..] else name
  }

  /** The entries of the root directory. */
  function Directory(files: seq<File>): (t: seq<Byte>)
    requires |files| + 2 <= 0x1_0000
    ensures |t| == 16 * (|files| + 2)
  {
    if files == [] then Dirent(ROOTINO, [DOT]) + Dirent(ROOTINO, [DOT, DOT])
    else Directory(files[..|files| - 1]) + Dirent(|files| + 1, Stripped(files[|files| - 1].name))
  }

  lemma DirectoryNext(files: seq<File>, n: nat)
    requires n < |files| && n + 3 <= 0x1_0000
    ensures Directory(files[..n + 1]) == Directory(files[..n]) + Dirent(n + 2, Stripped(files[n].name))
  {
    assert files[..n + 1][..n] == files[..n];
  }

  lemma RootBytes(s: State, files: seq<File>)
    requires Owners(LAYOUT, s) && FileOk(LAYOUT, s, ROOTINO) && |files| + 2 <= NINODES
    requires Bytes(s, ROOTINO) == Directory(files)
    ensures s.itab[ROOTINO].size == 16 * (|files| + 2)
    ensures forall x: nat :: x < |Directory(files)| ==>
              x < MAXFILE * BSIZE && ByteAt(s, ROOTINO, x) == Directory(files)[x]
  {
    hide ByteAt, Addr, Owned, Slots, Synced;
    FileSize(LAYOUT, s, ROOTINO);
    forall x: nat | x < |Directory(files)| ensures ByteAt(s, ROOTINO, x) == Directory(files)[x] {
      assert Bytes(s, ROOTINO)[x] == ByteAt(s, ROOTINO, x);
    }
  }

  lemma PackedSize(s: State, free: nat)
    requires Packed(s, free)
    ensures |s.disk| == FSSIZE && free <= FSSIZE
  {
  }

  /** Writing the free map leaves every file alone, and makes the map right. */
  lemma MapWritten(s: State, s': State, free: nat)
    requires Owners(LAYOUT, s) && Packed(s, free) && s'.itab == s.itab && s'.owner == s.owner && |s'.disk| == |s.disk|
    requires s'.disk == s.disk[LAYOUT.bmapstart := s'.disk[LAYOUT.bmapstart]]
    requires forall j: nat :: j < BPB ==> (Bit(s'.disk[LAYOUT.bmapstart], j) <==> j < free)
    ensures Inv(LAYOUT, s') && OthersKept(LAYOUT, s, s', NINODES)
  {
    hide Addr, ByteAt, Synced, Bit;
    OthersFrame(LAYOUT, s, s', NINODES, {});
    SameOwners(LAYOUT, s, s');
  }

  lemma LogStays(s: State, s': State, free: nat)
    requires Packed(s, free) && |s'.disk| == |s.disk|
    requires s'.disk == s.disk[LAYOUT.bmapstart := s'.disk[LAYOUT.bmapstart]]
    ensures LogZero(s'.disk) && SuperOk(s'.disk)
  {
    hide Word;
  }

  lemma FilesKept(s: State, s': State)
    requires Owners(LAYOUT, s) && Owners(LAYOUT, s') && OthersKept(LAYOUT, s, s', NINODES)
    ensures forall i: nat :: i < NINODES && Synced(LAYOUT, s, i) ==> Synced(LAYOUT, s', i)
    ensures forall i: nat :: i < NINODES && Synced(LAYOUT, s, i) ==> (FileOk(LAYOUT, s', i) <==> FileOk(LAYOUT, s, i))
    ensures forall i: nat, x: nat :: i < NINODES && x < MAXFILE * BSIZE ==> ByteAt(s', i, x) == ByteAt(s, i, x)
  {
    hide Addr, ByteAt, Synced, Owned, Slots;
  }

  lemma {:induction false} ZeroBits(k: nat)
    ensures !ByteBit(0, k)
  {
    if k > 0 {
      ZeroBits(k - 1);
    }
  }

  lemma ZeroBit(j: nat)
    requires j < BPB
    ensures !Bit(ZERO_BLOCK, j)
  {
    ZeroBits(j % 8);
  }

  /** The bytes of a file, whatever its size says. */
  ghost function Bytes(s: State, i: nat): seq<Byte>
    requires i < |s.itab|
  {
    if s.itab[i].size <= MAXFILE * BSIZE then Contents(s, i) else []
  }

  lemma Appended(s: State, s1: State, s': State, i: nat, src: seq<Byte>)
    requires Owners(LAYOUT, s) && i < NINODES && s.itab[i].size <= MAXFILE * BSIZE
    requires Owners(LAYOUT, s1) && Owners(LAYOUT, s')
    requires s.itab[i].size + |src| <= MAXFILE * BSIZE && Tight(s, i, s.itab[i].size)
    requires End(s.itab[i].size, |src|) <= MAXFILE && ZeroTail(s, i, s.itab[i].size)
    requires Written(LAYOUT, s, s1, i, src, s.itab[i].size, End(s.itab[i].size, |src|))
    requires OthersKept(LAYOUT, s1, s', i) && SameBytes(s1, s', i) && s'.itab[i].size == s.itab[i].size + |src|
    requires forall m: nat :: m <= INDIRECT ==> Addr(s', i, m) == Addr(s1, i, m)
    ensures Tight(s', i, s'.itab[i].size) && OthersKept(LAYOUT, s, s', i) && ZeroTail(s', i, s'.itab[i].size)
    ensures Bytes(s', i) == Bytes(s, i) + src
  {
    hide Owned, Slots, Addr, ByteAt, Synced, OthersKept, Contents, Need, Tight;
    OthersTwice(LAYOUT, s, s1, s', i);
    assert Laid(s, s', i, src, s.itab[i].size);
    assert Placed(s, s', i, s.itab[i].size / BSIZE, End(s.itab[i].size, |src|));
    TightGrows(s, s', i, s.itab[i].size, s.itab[i].size, |src|);
    ContentsLaid(s, s', i, src, s.itab[i].size);
    ContentsSize(s, i);
  }
}
