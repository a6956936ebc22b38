/**
 The file system on disk (fs.h, fs.c): the free map, the inodes and the blocks they own.

 The disk here is what bread shows of it, block by block.  An inode's blocks are named by
 slots: slot k below MAXFILE is the file's k-th block, and slot INDIRECT the block that
 lists those from NDIRECT on.
 */
module FileState {

  import opened Basics
  import opened Blocks

  const NDIRECT: nat := 12
  const NINDIRECT: nat := 128
  const MAXFILE: nat := 140
  const INDIRECT: nat := 140
  const IPB: nat := 8
  const T_DIR: nat := 1
  const T_FILE: nat := 2
  const T_DEV: nat := 3

  /** The layout that the super block describes; `nmeta` is the first block after the free map. */
  datatype Super = Super(size: nat, ninodes: nat, inodestart: nat, bmapstart: nat, nmeta: nat)

  ghost predicate Layout(sb: Super) {
    && 2 <= sb.inodestart && sb.inodestart + sb.ninodes / IPB + 1 <= sb.bmapstart
    && sb.bmapstart + sb.size / BPB + 1 <= sb.nmeta <= sb.size < UINT_LIMIT
  }

  function IBlock(sb: Super, i: nat): nat {
    i / IPB + sb.inodestart
  }

  function BBlock(sb: Super, b: nat): nat {
    b / BPB + sb.bmapstart
  }

  type Addrs = a: seq<Uint> | |a| == 13 witness seq(13, _ => 0)

  /** An inode; `kind` packs the type and major number, `links` the minor number and link count. */
  datatype Inode = Inode(kind: Uint, links: Uint, size: Uint, addrs: Addrs)

  function Words(ino: Inode): (ws: seq<Uint>)
    ensures |ws| == 16
  {
    [ino.kind, ino.links, ino.size] + ino.addrs
  }

  /** The k-th inode of a block of inodes is `ino`. */
  ghost predicate Holds(b: Block, k: nat, ino: Inode)
    requires k < IPB
  {
    forall j {:trigger Words(ino)[j]} :: 0 <= j < 16 ==> Word(b, 16 * k + j) == Words(ino)[j]
  }

  function PutInode(b: Block, k: nat, ino: Inode): (b': Block)
    requires k < IPB
    ensures Holds(b', k, ino)
  {
    PutWords(b, 16 * k, Words(ino))
  }

  /** The k-th inode of a block, field by field. */
  method ReadInode(b: Block, k: nat) returns (ino: Inode)
    requires k < IPB
    ensures forall ino' :: Holds(b, k, ino') ==> ino == ino'
  {
    var addrs: seq<Uint> := [];
    while |addrs| < 13
      invariant |addrs| <= 13 && forall j: nat :: j < |addrs| ==> addrs[j] == Word(b, 16 * k + 3 + j)
    {
      addrs := addrs + [Word(b, 16 * k + 3 + |addrs|)];
    }
    ino := Inode(Word(b, 16 * k), Word(b, 16 * k + 1), Word(b, 16 * k + 2), addrs);
    forall ino' | Holds(b, k, ino') ensures ino == ino' {
      OneInode(b, k, ino, ino');
    }
  }

  lemma OneInode(b: Block, k: nat, ino: Inode, ino': Inode)
    requires k < IPB && Holds(b, k, ino')
    requires ino.kind == Word(b, 16 * k) && ino.links == Word(b, 16 * k + 1) && ino.size == Word(b, 16 * k + 2)
    requires forall j: nat :: j < 13 ==> ino.addrs[j] == Word(b, 16 * k + 3 + j)
    ensures ino == ino'
  {
    hide Word;
    assert Words(ino')[0] == ino'.kind && Words(ino')[1] == ino'.links && Words(ino')[2] == ino'.size;
    forall j: nat | j < 13 ensures ino.addrs[j] == ino'.addrs[j] {
      assert Words(ino')[3 + j] == ino'.addrs[j];
    }
    assert ino.addrs == ino'.addrs;
  }

  /** The 16-bit number in two bytes of a block, low byte first. */
  function Half(b: Block, x: nat): nat
    requires x + 1 < 512
  {
    (b[x] as int) + 0x100 * (b[x + 1] as int)
  }

  lemma Halves(b: Block, i: nat)
    requires i < WORDS
    ensures Word(b, i) % 0x1_0000 == Half(b, 4 * i) && Word(b, i) / 0x1_0000 == Half(b, 4 * i + 2)
  {
    var lo, hi := Half(b, 4 * i), Half(b, 4 * i + 2);
    assert Word(b, i) == lo + 0x1_0000 * hi && lo < 0x1_0000;
  }

  /** Where the fields of an inode are in its 64 bytes: type, major, minor, nlink, size and the block addresses. */
  lemma InodeFields(b: Block, k: nat, ino: Inode)
    requires k < IPB && Holds(b, k, ino)
    ensures ino.kind % 0x1_0000 == Half(b, 64 * k) && ino.kind / 0x1_0000 == Half(b, 64 * k + 2)
    ensures ino.links % 0x1_0000 == Half(b, 64 * k + 4) && ino.links / 0x1_0000 == Half(b, 64 * k + 6)
    ensures ino.size == Half(b, 64 * k + 8) + 0x1_0000 * Half(b, 64 * k + 10)
    ensures forall j: nat :: j < 13 ==>
              ino.addrs[j] == Half(b, 64 * k + 12 + 4 * j) + 0x1_0000 * Half(b, 64 * k + 14 + 4 * j)
  {
    hide Word;
    Halves(b, 16 * k);
    Halves(b, 16 * k + 1);
    Halves(b, 16 * k + 2);
    assert Words(ino)[0] == ino.kind && Words(ino)[1] == ino.links && Words(ino)[2] == ino.size;
    forall j: nat | j < 13
      ensures ino.addrs[j] == Half(b, 64 * k + 12 + 4 * j) + 0x1_0000 * Half(b, 64 * k + 14 + 4 * j)
    {
      assert Words(ino)[3 + j] == ino.addrs[j];
      Halves(b, 16 * k + 3 + j);
    }
  }

  /** The inodes lie 64 bytes apart from the first block of inodes on, and the map's bits one after the other. */
  lemma Places(sb: Super, i: nat)
    ensures 512 * IBlock(sb, i) + 64 * (i % IPB) == 512 * sb.inodestart + 64 * i
    ensures 4096 * BBlock(sb, i) + i % BPB == 4096 * sb.bmapstart + i
  {
  }

  lemma PutInodeOther(b: Block, k: nat, ino: Inode, k': nat, ino': Inode)
    requires k < IPB && k' < IPB && k' != k && Holds(b, k', ino')
    ensures Holds(PutInode(b, k, ino), k', ino')
  {
  }

  datatype Slot = Slot(inum: nat, k: nat)

  /** The disk, the inodes as the kernel has them in memory, and who owns which block. */
  datatype State = State(disk: seq<Block>, itab: seq<Inode>, owner: map<nat, Slot>)

  /** The block in slot k of inode i, or 0. */
  function Addr(s: State, i: nat, k: nat): Uint
    requires i < |s.itab| && k <= INDIRECT
  {
    var a := s.itab[i].addrs;
    if k < NDIRECT then a[k]
    else if k == INDIRECT then a[NDIRECT]
    else if a[NDIRECT] == 0 || a[NDIRECT] >= |s.disk| then 0
    else Word(s.disk[a[NDIRECT]], k - NDIRECT)
  }

  /** The byte at offset x of file i; 0 where there is no block. */
  function ByteAt(s: State, i: nat, x: nat): Byte
    requires i < |s.itab| && x < MAXFILE * BSIZE
  {
    var a := Addr(s, i, x / BSIZE);
    if a == 0 || a >= |s.disk| then 0 else s.disk[a][x % BSIZE]
  }

  predicate Used(sb: Super, disk: seq<Block>, b: nat)
    requires BBlock(sb, b) < |disk|
  {
    Bit(disk[BBlock(sb, b)], b % BPB)
  }

  // ---------- the invariant ----------

  /** A block is marked used exactly when it is metadata or somebody's. */
  ghost predicate Bitmap(sb: Super, s: State)
    requires Layout(sb) && |s.disk| == sb.size
  {
    forall b: nat :: b < sb.size ==> (Used(sb, s.disk, b) <==> b < sb.nmeta || b in s.owner)
  }

  /** Every owned block is in its owner's slot. */
  ghost predicate Owned(sb: Super, s: State) {
    forall b :: b in s.owner ==>
      && sb.nmeta <= b < sb.size && s.owner[b].inum < |s.itab| && s.owner[b].k <= INDIRECT
      && Addr(s, s.owner[b].inum, s.owner[b].k) == b
  }

  /** Every block in a slot is owned by that slot, so by no other. */
  ghost predicate Slots(s: State) {
    forall i: nat, k: nat :: i < |s.itab| && k <= INDIRECT && Addr(s, i, k) != 0 ==>
      Addr(s, i, k) in s.owner && s.owner[Addr(s, i, k)] == Slot(i, k)
  }

  /** Slots and owners agree. */
  ghost predicate Owners(sb: Super, s: State) {
    && Layout(sb) && |s.disk| == sb.size && |s.itab| == sb.ninodes
    && Owned(sb, s) && Slots(s)
  }

  ghost predicate Inv(sb: Super, s: State) {
    Owners(sb, s) && Bitmap(sb, s)
  }

  /** The inode on disk is the one in memory. */
  ghost predicate Synced(sb: Super, s: State, i: nat)
    requires Layout(sb) && |s.disk| == sb.size && i < |s.itab| == sb.ninodes
  {
    Holds(s.disk[IBlock(sb, i)], i % IPB, s.itab[i])
  }

  /** The file has blocks for its first `len` bytes and no others: no holes, nothing beyond. */
  ghost predicate Tight(s: State, i: nat, len: nat)
    requires i < |s.itab|
  {
    && len <= MAXFILE * BSIZE
    && (forall k: nat :: k < MAXFILE ==> (Addr(s, i, k) != 0 <==> k * BSIZE < len))
    && (Addr(s, i, INDIRECT) != 0 <==> len > NDIRECT * BSIZE)
  }

  ghost predicate FileOk(sb: Super, s: State, i: nat)
    requires Layout(sb) && |s.disk| == sb.size && i < |s.itab| == sb.ninodes
  {
    Synced(sb, s, i) && Tight(s, i, s.itab[i].size)
  }

  // ---------- what a change to one file leaves alone ----------

  /** Files other than i have the same inode, blocks and bytes, in memory and on disk. */
  ghost predicate OthersKept(sb: Super, s: State, s': State, i: nat)
    requires Layout(sb) && |s.disk| == sb.size && |s.itab| == sb.ninodes
  {
    && |s'.disk| == |s.disk| && |s'.itab| == |s.itab|
    && (forall j: nat :: j < |s.itab| && j != i ==> s'.itab[j] == s.itab[j])
    && (forall j: nat, k: nat :: j < |s.itab| && j != i && k <= INDIRECT ==> Addr(s', j, k) == Addr(s, j, k))
    && (forall j: nat, x: nat :: j < |s.itab| && j != i && x < MAXFILE * BSIZE ==> ByteAt(s', j, x) == ByteAt(s, j, x))
    && (forall j: nat :: j < |s.itab| && j != i && Synced(sb, s, j) ==> Synced(sb, s', j))
  }

  lemma OthersTwice(sb: Super, s0: State, s1: State, s2: State, i: nat)
    requires Layout(sb) && |s0.disk| == sb.size && |s0.itab| == sb.ninodes
    requires OthersKept(sb, s0, s1, i) && OthersKept(sb, s1, s2, i)
    ensures OthersKept(sb, s0, s2, i)
  {
    hide Addr, ByteAt, Synced;
  }

  lemma OthersSelf(sb: Super, s: State, i: nat)
    requires Layout(sb) && |s.disk| == sb.size && |s.itab| == sb.ninodes
    ensures OthersKept(sb, s, s, i)
  {
  }

  lemma OthersOk(sb: Super, s: State, s': State, i: nat, j: nat)
    requires Layout(sb) && |s.disk| == sb.size && |s.itab| == sb.ninodes
    requires OthersKept(sb, s, s', i) && j < |s.itab| && j != i && FileOk(sb, s, j)
    ensures FileOk(sb, s', j)
  {
    hide Addr, Synced;
  }

  ghost predicate InMap(sb: Super, m: nat) {
    sb.bmapstart <= m < sb.nmeta
  }

  /** Apart from the free map, the disks differ only in the blocks `xs`. */
  ghost predicate SameOutside(sb: Super, disk: seq<Block>, disk': seq<Block>, xs: set<nat>) {
    && |disk'| == |disk|
    && forall m: nat :: m < |disk| && !InMap(sb, m) && m !in xs ==> disk'[m] == disk[m]
  }

  /** A block in a slot is a data block, and it is owned. */
  lemma SlotBlock(sb: Super, s: State, i: nat, k: nat)
    requires Owners(sb, s) && i < |s.itab| && k <= INDIRECT && Addr(s, i, k) != 0
    ensures sb.nmeta <= Addr(s, i, k) < |s.disk| && Addr(s, i, k) in s.owner && s.owner[Addr(s, i, k)] == Slot(i, k)
  {
    hide Addr;
  }

  /** The indirect slots of a file depend only on its own indirect block. */
  lemma AddrFrame(s: State, s': State, i: nat, k: nat)
    requires i < |s.itab| && i < |s'.itab| && NDIRECT <= k < INDIRECT && |s'.disk| == |s.disk|
    requires s'.itab[i].addrs[NDIRECT] == s.itab[i].addrs[NDIRECT]
    requires var ind := s.itab[i].addrs[NDIRECT]; 0 < ind < |s.disk| ==> s'.disk[ind] == s.disk[ind]
    ensures Addr(s', i, k) == Addr(s, i, k)
  {
  }

  /** A change to blocks that are free or file i's own leaves the other files alone. */
  lemma OthersFrame(sb: Super, s: State, s': State, i: nat, xs: set<nat>)
    requires Owners(sb, s) && SameOutside(sb, s.disk, s'.disk, xs) && |s'.itab| == |s.itab|
    requires forall j: nat :: j < |s.itab| && j != i ==> s'.itab[j] == s.itab[j]
    requires forall a :: a in xs ==> sb.nmeta <= a && (a in s.owner ==> s.owner[a].inum == i)
    ensures OthersKept(sb, s, s', i)
  {
    forall j: nat, k: nat | j < |s.itab| && j != i && k <= INDIRECT ensures Addr(s', j, k) == Addr(s, j, k) {
      OtherAddr(sb, s, s', i, xs, j, k);
    }
    forall j: nat, x: nat | j < |s.itab| && j != i && x < MAXFILE * BSIZE ensures ByteAt(s', j, x) == ByteAt(s, j, x) {
      OtherByte(sb, s, s', i, xs, j, x);
    }
  }

  lemma OtherAddr(sb: Super, s: State, s': State, i: nat, xs: set<nat>, j: nat, k: nat)
    requires Owners(sb, s) && SameOutside(sb, s.disk, s'.disk, xs) && |s'.itab| == |s.itab|
    requires forall a :: a in xs ==> sb.nmeta <= a && (a in s.owner ==> s.owner[a].inum == i)
    requires j < |s.itab| && j != i && s'.itab[j] == s.itab[j] && k <= INDIRECT
    ensures Addr(s', j, k) == Addr(s, j, k)
  {
    assert Addr(s, j, INDIRECT) == s.itab[j].addrs[NDIRECT];
    if Addr(s, j, INDIRECT) != 0 {
      SlotBlock(sb, s, j, INDIRECT);
    }
    if NDIRECT <= k < INDIRECT {
      AddrFrame(s, s', j, k);
    }
  }

  lemma OtherByte(sb: Super, s: State, s': State, i: nat, xs: set<nat>, j: nat, x: nat)
    requires Owners(sb, s) && SameOutside(sb, s.disk, s'.disk, xs) && |s'.itab| == |s.itab|
    requires forall a :: a in xs ==> sb.nmeta <= a && (a in s.owner ==> s.owner[a].inum == i)
    requires j < |s.itab| && j != i && s'.itab[j] == s.itab[j] && x < MAXFILE * BSIZE
    ensures ByteAt(s', j, x) == ByteAt(s, j, x)
  {
    OtherAddr(sb, s, s', i, xs, j, x / BSIZE);
    if Addr(s, j, x / BSIZE) != 0 {
      SlotBlock(sb, s, j, x / BSIZE);
    }
    hide Addr, Owned, Slots;
  }

  // ---------- allocating a block to a slot ----------

  /** Data block b has been zeroed, and nothing else differs apart from the free map. */
  ghost predicate Zeroed(sb: Super, disk: seq<Block>, disk': seq<Block>, b: nat) {
    && SameOutside(sb, disk, disk', {b}) && sb.nmeta <= b < sb.size == |disk|
    && disk'[b] == ZERO_BLOCK
  }

  /** Block b has been marked used. */
  ghost predicate Marked(sb: Super, disk: seq<Block>, disk': seq<Block>, b: nat)
    requires Layout(sb) && |disk| == |disk'| == sb.size && b < sb.size
  {
    && !Used(sb, disk, b)
    && forall c: nat :: c < sb.size ==> (Used(sb, disk', c) <==> c == b || Used(sb, disk, c))
  }

  /** A block has been taken: it was free, and it is marked used and zeroed. */
  ghost predicate Taken(sb: Super, disk: seq<Block>, disk': seq<Block>, b: nat)
    requires Layout(sb) && |disk| == sb.size
  {
    Zeroed(sb, disk, disk', b) && Marked(sb, disk, disk', b)
  }

  /** Slot k of file i now holds block b, and the other slots are as before. */
  ghost predicate Filled(s: State, s': State, i: nat, k: nat, b: nat) {
    && |s'.itab| == |s.itab|
    && forall j: nat, m: nat :: j < |s.itab| && m <= INDIRECT ==>
         Addr(s', j, m) == if j == i && m == k then b else Addr(s, j, m)
  }

  lemma FilledOwners(sb: Super, s: State, s': State, i: nat, k: nat, b: nat)
    requires Owners(sb, s) && i < |s.itab| && k <= INDIRECT && Addr(s, i, k) == 0
    requires |s'.disk| == |s.disk| && sb.nmeta <= b < sb.size && b !in s.owner
    requires Filled(s, s', i, k, b) && s'.owner == s.owner[b := Slot(i, k)]
    ensures Owners(sb, s')
  {
    hide Addr;
    forall c | c in s'.owner
      ensures && sb.nmeta <= c < sb.size && s'.owner[c].inum < |s'.itab| && s'.owner[c].k <= INDIRECT
              && Addr(s', s'.owner[c].inum, s'.owner[c].k) == c
    {
      assert c != b ==> c in s.owner;
    }
  }

  /** The free map follows the owners when a block is taken. */
  lemma MarkedBitmap(sb: Super, s: State, disk1: seq<Block>, s': State, t: Slot, b: nat)
    requires Inv(sb, s) && |disk1| == |s'.disk| == sb.size && sb.nmeta <= b < sb.size && Marked(sb, s.disk, disk1, b)
    requires MapSame(sb, disk1, s'.disk) && s'.owner == s.owner[b := t]
    ensures Bitmap(sb, s')
  {
    hide Owned, Slots;
    UsedSame(sb, disk1, s'.disk);
  }

  ghost predicate MapSame(sb: Super, disk: seq<Block>, disk': seq<Block>) {
    |disk'| == |disk| && forall m: nat :: InMap(sb, m) && m < |disk| ==> disk'[m] == disk[m]
  }

  lemma UsedSame(sb: Super, disk: seq<Block>, disk': seq<Block>)
    requires Layout(sb) && |disk| == sb.size && MapSame(sb, disk, disk')
    ensures forall b: nat :: b < sb.size ==> (Used(sb, disk', b) <==> Used(sb, disk, b))
  {
    hide Bit;
    forall b: nat | b < sb.size ensures Used(sb, disk', b) <==> Used(sb, disk, b) {
      assert InMap(sb, BBlock(sb, b));
    }
  }

  /** Where neither the map nor the owners change, the map stays right. */
  lemma BitmapSame(sb: Super, s: State, s': State)
    requires Inv(sb, s) && MapSame(sb, s.disk, s'.disk) && s'.owner == s.owner
    ensures Bitmap(sb, s')
  {
    hide Owned, Slots;
    UsedSame(sb, s.disk, s'.disk);
  }

  /** A free block is in no slot. */
  lemma NotInSlot(sb: Super, s: State, b: nat, j: nat, m: nat)
    requires Owners(sb, s) && b !in s.owner && j < |s.itab| && m <= INDIRECT
    ensures Addr(s, j, m) != 0 ==> Addr(s, j, m) != b && !InMap(sb, Addr(s, j, m))
  {
    hide Addr;
    if Addr(s, j, m) != 0 {
      SlotBlock(sb, s, j, m);
    }
  }

  /** A direct slot, or the indirect block itself, gets a block. */
  lemma FillDirect(sb: Super, s: State, s': State, i: nat, k: nat, b: nat)
    requires Owners(sb, s) && i < |s.itab| && (k < NDIRECT || k == INDIRECT) && Addr(s, i, k) == 0
    requires Zeroed(sb, s.disk, s'.disk, b) && b !in s.owner && |s'.itab| == |s.itab| && b < UINT_LIMIT
    requires forall j: nat :: j < |s.itab| && j != i ==> s'.itab[j] == s.itab[j]
    requires s'.itab[i].addrs == s.itab[i].addrs[(if k == INDIRECT then NDIRECT else k) := b]
    ensures Filled(s, s', i, k, b)
  {
    hide Addr, Owned, Slots, SameOutside;
    forall j: nat, m: nat | j < |s.itab| && m <= INDIRECT
      ensures Addr(s', j, m) == if j == i && m == k then b else Addr(s, j, m)
    {
      NotInSlot(sb, s, b, j, INDIRECT);
      FillDirectAt(sb, s, s', i, k, b, j, m);
    }
  }

  lemma FillDirectAt(sb: Super, s: State, s': State, i: nat, k: nat, b: nat, j: nat, m: nat)
    requires i < |s.itab| == |s'.itab| && (k < NDIRECT || k == INDIRECT) && Addr(s, i, k) == 0
    requires SameOutside(sb, s.disk, s'.disk, {b}) && 0 < b < UINT_LIMIT && b < |s.disk| && s'.disk[b] == ZERO_BLOCK
    requires j < |s.itab| && m <= INDIRECT && (j != i ==> s'.itab[j] == s.itab[j])
    requires s'.itab[i].addrs == s.itab[i].addrs[(if k == INDIRECT then NDIRECT else k) := b]
    requires Addr(s, j, INDIRECT) != 0 ==> Addr(s, j, INDIRECT) != b && !InMap(sb, Addr(s, j, INDIRECT))
    ensures Addr(s', j, m) == if j == i && m == k then b else Addr(s, j, m)
  {
    hide Word, InMap;
    if NDIRECT <= m < INDIRECT {
      if j == i && k == INDIRECT {
        ZeroWord(m - NDIRECT);
      } else {
        AddrFrame(s, s', j, m);
      }
    }
  }

  /** A slot listed in the indirect block gets a block. */
  lemma FillEntry(sb: Super, s: State, s': State, i: nat, k: nat, b: nat, disk1: seq<Block>)
    requires Owners(sb, s) && i < |s.itab| && NDIRECT <= k < MAXFILE && Addr(s, i, k) == 0 && Addr(s, i, INDIRECT) != 0
    requires Zeroed(sb, s.disk, disk1, b) && b !in s.owner && s'.itab == s.itab && b < UINT_LIMIT
    requires Addr(s, i, INDIRECT) < |s.disk|
    requires s'.disk == disk1[Addr(s, i, INDIRECT) := SetWord(disk1[Addr(s, i, INDIRECT)], k - NDIRECT, b)]
    ensures Filled(s, s', i, k, b) && Addr(s, i, INDIRECT) != b
  {
    hide Addr, Owned, Slots, SameOutside, SetWord;
    NotInSlot(sb, s, b, i, INDIRECT);
    forall j: nat, m: nat | j < |s.itab| && m <= INDIRECT
      ensures Addr(s', j, m) == if j == i && m == k then b else Addr(s, j, m)
    {
      NotInSlot(sb, s, b, j, INDIRECT);
      if j != i {
        IndirectApart(sb, s, i, j);
      }
      FillEntryAt(sb, s, s', i, k, b, disk1, j, m);
    }
  }

  lemma FillEntryAt(sb: Super, s: State, s': State, i: nat, k: nat, b: nat, disk1: seq<Block>, j: nat, m: nat)
    requires i < |s.itab| && NDIRECT <= k < MAXFILE && 0 < Addr(s, i, INDIRECT) < |s.disk| && b < UINT_LIMIT
    requires SameOutside(sb, s.disk, disk1, {b}) && s'.itab == s.itab && j < |s.itab| && m <= INDIRECT
    requires s'.disk == disk1[Addr(s, i, INDIRECT) := SetWord(disk1[Addr(s, i, INDIRECT)], k - NDIRECT, b)]
    requires Addr(s, i, INDIRECT) != b && !InMap(sb, Addr(s, i, INDIRECT))
    requires Addr(s, j, INDIRECT) != 0 ==> Addr(s, j, INDIRECT) != b && !InMap(sb, Addr(s, j, INDIRECT))
    requires j != i ==> Addr(s, j, INDIRECT) != Addr(s, i, INDIRECT)
    ensures Addr(s', j, m) == if j == i && m == k then b else Addr(s, j, m)
  {
    hide Word, InMap;
    if NDIRECT <= m < INDIRECT && j != i {
      AddrFrame(s, s', j, m);
    }
  }

  lemma IndirectApart(sb: Super, s: State, i: nat, j: nat)
    requires Owners(sb, s) && i < |s.itab| && j < |s.itab| && j != i && Addr(s, i, INDIRECT) != 0
    ensures Addr(s, j, INDIRECT) != Addr(s, i, INDIRECT)
  {
    hide Addr;
    SlotBlock(sb, s, i, INDIRECT);
    if Addr(s, j, INDIRECT) != 0 {
      SlotBlock(sb, s, j, INDIRECT);
    }
  }

  ghost predicate SameBytes(s: State, s': State, i: nat)
    requires i < |s.itab| == |s'.itab|
  {
    forall x: nat :: x < MAXFILE * BSIZE ==> ByteAt(s', i, x) == ByteAt(s, i, x)
  }

  /** A zeroed block in a new slot shows the zeroes that were read there before. */
  lemma FilledBytes(sb: Super, s: State, s': State, i: nat, k: nat, b: nat, xs: set<nat>)
    requires Owners(sb, s) && i < |s.itab| && k <= INDIRECT && Addr(s, i, k) == 0 && Filled(s, s', i, k, b)
    requires SameOutside(sb, s.disk, s'.disk, xs) && b < |s.disk| && s'.disk[b] == ZERO_BLOCK && b !in s.owner
    requires forall a :: a in xs ==> a == b || (a in s.owner && s.owner[a] == Slot(i, INDIRECT))
    ensures SameBytes(s, s', i)
  {
    forall x: nat | x < MAXFILE * BSIZE ensures ByteAt(s', i, x) == ByteAt(s, i, x) {
      NotInSlot(sb, s, b, i, x / BSIZE);
      if Addr(s, i, x / BSIZE) != 0 {
        SlotBlock(sb, s, i, x / BSIZE);
      }
      hide Addr, Owned, Slots;
    }
  }

  /** File i has gained block b in slot k; no byte of any file shows it. */
  ghost predicate Added(sb: Super, s: State, s': State, i: nat, k: nat, b: nat)
    requires Layout(sb) && |s.disk| == sb.size && i < |s.itab| == sb.ninodes
  {
    && Owners(sb, s') && Filled(s, s', i, k, b) && OthersKept(sb, s, s', i) && SameBytes(s, s', i)
    && SameHead(s.itab[i], s'.itab[i]) && s'.disk[IBlock(sb, i)] == s.disk[IBlock(sb, i)]
    && s'.owner == s.owner[b := Slot(i, k)]
  }

  ghost predicate SameHead(a: Inode, b: Inode) {
    b.kind == a.kind && b.links == a.links && b.size == a.size
  }

  lemma AddedDirect(sb: Super, s: State, s': State, i: nat, k: nat, b: nat)
    requires Owners(sb, s) && i < |s.itab| && (k < NDIRECT || k == INDIRECT) && Addr(s, i, k) == 0
    requires Zeroed(sb, s.disk, s'.disk, b) && b !in s.owner && |s'.itab| == |s.itab| && b < UINT_LIMIT
    requires forall j: nat :: j < |s.itab| && j != i ==> s'.itab[j] == s.itab[j]
    requires s'.itab[i].addrs == s.itab[i].addrs[(if k == INDIRECT then NDIRECT else k) := b]
    requires SameHead(s.itab[i], s'.itab[i]) && s'.owner == s.owner[b := Slot(i, k)]
    ensures Added(sb, s, s', i, k, b)
  {
    hide Addr, Owned, Slots, ByteAt, OthersKept, SameBytes, Filled;
    FillDirect(sb, s, s', i, k, b);
    FilledOwners(sb, s, s', i, k, b);
    OthersFrame(sb, s, s', i, {b});
    FilledBytes(sb, s, s', i, k, b, {b});
  }

  lemma AddedEntry(sb: Super, s: State, s': State, i: nat, k: nat, b: nat, disk1: seq<Block>)
    requires Owners(sb, s) && i < |s.itab| && NDIRECT <= k < MAXFILE && Addr(s, i, k) == 0 && Addr(s, i, INDIRECT) != 0
    requires Zeroed(sb, s.disk, disk1, b) && b !in s.owner && s'.itab == s.itab && b < UINT_LIMIT
    requires Addr(s, i, INDIRECT) < |s.disk|
    requires s'.disk == disk1[Addr(s, i, INDIRECT) := SetWord(disk1[Addr(s, i, INDIRECT)], k - NDIRECT, b)]
    requires s'.owner == s.owner[b := Slot(i, k)]
    ensures Added(sb, s, s', i, k, b)
  {
    hide Addr, Owned, Slots, ByteAt, OthersKept, SameBytes, Filled, SetWord, Bit;
    var ind := Addr(s, i, INDIRECT);
    SlotBlock(sb, s, i, INDIRECT);
    FillEntry(sb, s, s', i, k, b, disk1);
    FilledOwners(sb, s, s', i, k, b);
    OthersFrame(sb, s, s', i, {b, ind});
    FilledBytes(sb, s, s', i, k, b, {b, ind});
  }

  // ---------- giving a file blocks ----------

  /** File i has blocks in slots `from..to`, and in the other slots what it had; no block has moved. */
  ghost predicate Placed(s: State, s': State, i: nat, from: nat, to: nat)
    requires i < |s.itab| == |s'.itab|
  {
    && (forall k: nat :: k < MAXFILE ==>
       if from <= k < to then Addr(s', i, k) != 0 else Addr(s', i, k) == Addr(s, i, k))
    && (forall k: nat :: k <= INDIRECT && Addr(s, i, k) != 0 ==> Addr(s', i, k) == Addr(s, i, k))
    && (if from < to && to > NDIRECT then Addr(s', i, INDIRECT) != 0
        else Addr(s', i, INDIRECT) == Addr(s, i, INDIRECT))
  }

  /** How many of the slots `from..to` are empty. */
  ghost function Missing(s: State, i: nat, from: nat, to: nat): nat
    requires i < |s.itab| && to <= MAXFILE
  {
    if from >= to then 0 else Missing(s, i, from, to - 1) + if Addr(s, i, to - 1) == 0 then 1 else 0
  }

  /** How many blocks it takes to fill the slots `from..to`, the indirect block included. */
  ghost function Need(s: State, i: nat, from: nat, to: nat): nat
    requires i < |s.itab| && to <= MAXFILE
  {
    Missing(s, i, from, to) + if from < to && to > NDIRECT && Addr(s, i, INDIRECT) == 0 then 1 else 0
  }

  ghost predicate OwnersKept(s: State, s': State) {
    forall b :: b in s.owner ==> b in s'.owner && s'.owner[b] == s.owner[b]
  }

  /** Without a byte of any file changing, file i has gained the blocks it takes to fill the slots `from..to`. */
  ghost predicate Got(sb: Super, s: State, s': State, i: nat, from: nat, to: nat)
    requires Layout(sb) && |s.disk| == sb.size && i < |s.itab| == sb.ninodes && to <= MAXFILE
  {
    && Owners(sb, s') && OthersKept(sb, s, s', i) && SameBytes(s, s', i)
    && SameHead(s.itab[i], s'.itab[i]) && s'.disk[IBlock(sb, i)] == s.disk[IBlock(sb, i)]
    && Placed(s, s', i, from, to)
    && OwnersKept(s, s') && |s'.owner| == |s.owner| + Need(s, i, from, to)
  }

  lemma GotOne(sb: Super, s: State, s': State, i: nat, k: nat, b: nat)
    requires Owners(sb, s) && i < |s.itab| && k < MAXFILE && b > 0 && (k >= NDIRECT ==> Addr(s, i, INDIRECT) != 0)
    requires Addr(s, i, k) == 0 && Added(sb, s, s', i, k, b) && b !in s.owner
    ensures Got(sb, s, s', i, k, k + 1)
  {
    hide Addr, Owned, Slots, ByteAt, OthersKept, SameBytes;
    assert Missing(s, i, k, k) == 0;
  }

  lemma GotTwo(sb: Super, s: State, s1: State, s': State, i: nat, k: nat, b1: nat, b: nat)
    requires Owners(sb, s) && i < |s.itab| && NDIRECT <= k < MAXFILE && b > 0 && b1 > 0
    requires Addr(s, i, INDIRECT) == 0 && Addr(s, i, k) == 0
    requires Added(sb, s, s1, i, INDIRECT, b1) && Added(sb, s1, s', i, k, b) && b1 !in s.owner && b !in s1.owner
    ensures Got(sb, s, s', i, k, k + 1)
  {
    hide Addr, Owned, Slots, ByteAt, Synced;
    OthersTwice(sb, s, s1, s', i);
    assert Missing(s, i, k, k) == 0;
  }

  /** Filling slots and then more slots, some of which may be the same. */
  lemma PlacedTwice(s0: State, s1: State, s2: State, i: nat, from: nat, mid: nat, from': nat, to: nat)
    requires i < |s0.itab| == |s1.itab| == |s2.itab| && from <= from' <= mid <= to <= MAXFILE
    requires Placed(s0, s1, i, from, mid) && Placed(s1, s2, i, from', to)
    ensures Placed(s0, s2, i, from, to)
    ensures Need(s0, i, from, to) == Need(s0, i, from, mid) + Need(s1, i, from', to)
  {
    MissingTwice(s0, s1, i, from, mid, from', to);
    hide Addr, Missing;
  }

  lemma {:induction false} MissingTwice(s0: State, s1: State, i: nat, from: nat, mid: nat, from': nat, to: nat)
    requires i < |s0.itab| == |s1.itab| && from <= from' <= mid <= to <= MAXFILE && Placed(s0, s1, i, from, mid)
    ensures Missing(s0, i, from, to) == Missing(s0, i, from, mid) + Missing(s1, i, from', to)
  {
    hide Addr;
    if to > mid {
      MissingTwice(s0, s1, i, from, mid, from', to - 1);
    } else {
      NoneMissing(s1, i, from', to);
    }
  }

  lemma {:induction false} NoneMissing(s: State, i: nat, from: nat, to: nat)
    requires i < |s.itab| && to <= MAXFILE && forall k: nat :: from <= k < to ==> Addr(s, i, k) != 0
    ensures Missing(s, i, from, to) == 0
  {
    hide Addr;
    if from < to {
      NoneMissing(s, i, from, to - 1);
    }
  }

  lemma {:induction false} MissingGrows(s: State, i: nat, from: nat, mid: nat, to: nat)
    requires i < |s.itab| && mid <= to <= MAXFILE
    ensures Missing(s, i, from, mid) <= Missing(s, i, from, to)
  {
    if mid < to {
      MissingGrows(s, i, from, mid, to - 1);
    }
  }

  lemma NeedGrows(s: State, i: nat, from: nat, mid: nat, to: nat)
    requires i < |s.itab| && mid <= to <= MAXFILE
    ensures Need(s, i, from, mid) <= Need(s, i, from, to)
  {
    hide Addr, Missing;
    MissingGrows(s, i, from, mid, to);
  }

  /** An address of the inode itself is empty among those that blocks `from..to` go through. */
  ghost predicate Bare(s: State, i: nat, from: nat, to: nat)
    requires i < |s.itab|
  {
    || (exists k: nat :: from <= k < to && k < NDIRECT && s.itab[i].addrs[k] == 0)
    || (from < to && to > NDIRECT && s.itab[i].addrs[NDIRECT] == 0)
  }

  /** The inode in memory changes exactly if one of its own addresses was empty. */
  lemma InodeChanges(s: State, s': State, i: nat, from: nat, to: nat)
    requires i < |s.itab| == |s'.itab| && Placed(s, s', i, from, to) && SameHead(s.itab[i], s'.itab[i])
    ensures s'.itab[i] == s.itab[i] <==> !Bare(s, i, from, to)
  {
    forall m: nat | m <= NDIRECT
      ensures Addr(s, i, SlotOf(m)) == s.itab[i].addrs[m] && Addr(s', i, SlotOf(m)) == s'.itab[i].addrs[m]
    {
    }
    hide Addr;
    if !Bare(s, i, from, to) {
      forall m: nat | m <= NDIRECT ensures s'.itab[i].addrs[m] == s.itab[i].addrs[m] {
        assert m < NDIRECT ==> SlotOf(m) == m;
      }
      assert s'.itab[i].addrs == s.itab[i].addrs;
    } else if exists k: nat :: from <= k < to && k < NDIRECT && s.itab[i].addrs[k] == 0 {
      var k: nat :| from <= k < to && k < NDIRECT && s.itab[i].addrs[k] == 0;
      assert Addr(s', i, SlotOf(k)) != 0;
    }
  }

  /** The slot of the inode's address at index `at`. */
  function SlotOf(at: nat): nat {
    if at == NDIRECT then INDIRECT else at
  }

  // ---------- counting blocks ----------

  /** Owned blocks fit on the disk; when every block is used, they fill it. */
  lemma OwnedCount(sb: Super, s: State)
    requires Inv(sb, s)
    ensures |s.owner| <= sb.size - sb.nmeta
    ensures (forall b: nat :: b < sb.size ==> Used(sb, s.disk, b)) ==> |s.owner| == sb.size - sb.nmeta
  {
    hide Addr, Used, Slots;
    var all := Range(sb.nmeta, sb.size);
    assert |s.owner| == |s.owner.Keys|;
    SubsetSize(s.owner.Keys, all);
    if forall b: nat :: b < sb.size ==> Used(sb, s.disk, b) {
      forall b | b in all ensures b in s.owner.Keys {
      }
      assert s.owner.Keys == all;
    }
  }

  // ---------- writing to a block of a file ----------

  /** Block `data` has been stored in slot k of file i. */
  lemma DataWritten(sb: Super, s: State, s': State, i: nat, k: nat, data: Block)
    requires Owners(sb, s) && i < |s.itab| && k < MAXFILE && Addr(s, i, k) != 0 && Addr(s, i, k) < |s.disk|
    requires s' == State(s.disk[Addr(s, i, k) := data], s.itab, s.owner)
    ensures Owners(sb, s') && OthersKept(sb, s, s', i) && s'.disk[IBlock(sb, i)] == s.disk[IBlock(sb, i)]
    ensures forall m: nat :: m <= INDIRECT ==> Addr(s', i, m) == Addr(s, i, m)
    ensures forall x: nat :: x < MAXFILE * BSIZE ==>
              ByteAt(s', i, x) == if x / BSIZE == k then data[x % BSIZE] else ByteAt(s, i, x)
  {
    hide Addr, OthersKept, Owned, Slots, ByteAt;
    SlotBlock(sb, s, i, k);
    OthersFrame(sb, s, s', i, {Addr(s, i, k)});
    forall m: nat | m <= INDIRECT ensures Addr(s', i, m) == Addr(s, i, m) {
      OwnAddr(sb, s, s', i, k, m);
    }
    AllAddrs(sb, s, s', i);
    SameOwners(sb, s, s');
    forall x: nat | x < MAXFILE * BSIZE
      ensures ByteAt(s', i, x) == if x / BSIZE == k then data[x % BSIZE] else ByteAt(s, i, x)
    {
      OwnByte(sb, s, s', i, k, x, data);
    }
  }

  lemma AllAddrs(sb: Super, s: State, s': State, i: nat)
    requires Layout(sb) && |s.disk| == sb.size && i < |s.itab| == sb.ninodes && OthersKept(sb, s, s', i)
    requires forall m: nat :: m <= INDIRECT ==> Addr(s', i, m) == Addr(s, i, m)
    ensures forall j: nat, m: nat :: j < |s.itab| && m <= INDIRECT ==> Addr(s', j, m) == Addr(s, j, m)
  {
    hide Addr, ByteAt, Synced;
  }

  lemma OwnAddr(sb: Super, s: State, s': State, i: nat, k: nat, m: nat)
    requires Owners(sb, s) && i < |s.itab| && k < MAXFILE && Addr(s, i, k) != 0 && m <= INDIRECT
    requires SameOutside(sb, s.disk, s'.disk, {Addr(s, i, k)}) && s'.itab == s.itab
    ensures Addr(s', i, m) == Addr(s, i, m)
  {
    SlotBlock(sb, s, i, k);
    if Addr(s, i, INDIRECT) != 0 {
      SlotBlock(sb, s, i, INDIRECT);
    }
    if NDIRECT <= m < INDIRECT {
      AddrFrame(s, s', i, m);
    }
  }

  lemma OwnByte(sb: Super, s: State, s': State, i: nat, k: nat, x: nat, data: Block)
    requires Owners(sb, s) && i < |s.itab| && k < MAXFILE && x < MAXFILE * BSIZE && Addr(s, i, k) != 0
    requires Addr(s, i, k) < |s.disk| && s' == State(s.disk[Addr(s, i, k) := data], s.itab, s.owner)
    requires Addr(s', i, x / BSIZE) == Addr(s, i, x / BSIZE)
    ensures ByteAt(s', i, x) == if x / BSIZE == k then data[x % BSIZE] else ByteAt(s, i, x)
  {
    hide Addr, Owned, Slots;
    SlotBlock(sb, s, i, k);
    if Addr(s, i, x / BSIZE) != 0 {
      SlotBlock(sb, s, i, x / BSIZE);
    }
  }

  /** With the slots as they were, the owners are as they were. */
  lemma SameOwners(sb: Super, s: State, s': State)
    requires Owners(sb, s) && |s'.disk| == |s.disk| && |s'.itab| == |s.itab| && s'.owner == s.owner
    requires forall j: nat, m: nat :: j < |s.itab| && m <= INDIRECT ==> Addr(s', j, m) == Addr(s, j, m)
    ensures Owners(sb, s')
  {
    hide Addr;
  }

  // ---------- writing an inode ----------

  lemma InodeWritten(sb: Super, s: State, s': State, i: nat)
    requires Owners(sb, s) && i < |s.itab| && |s'.itab| == |s.itab| && s'.owner == s.owner
    requires forall j: nat :: j < |s.itab| && j != i ==> s'.itab[j] == s.itab[j]
    requires s'.itab[i].addrs == s.itab[i].addrs
    requires s'.disk == s.disk[IBlock(sb, i) := PutInode(s.disk[IBlock(sb, i)], i % IPB, s'.itab[i])]
    ensures Owners(sb, s') && OthersKept(sb, s, s', i) && SameBytes(s, s', i) && Synced(sb, s', i)
    ensures forall m: nat :: m <= INDIRECT ==> Addr(s', i, m) == Addr(s, i, m)
  {
    hide Owned, Slots, Holds;
    forall j: nat, m: nat | j < |s.itab| && m <= INDIRECT ensures Addr(s', j, m) == Addr(s, j, m) {
      MetaAddr(sb, s, s', j, m);
    }
    forall j: nat, x: nat | j < |s.itab| && x < MAXFILE * BSIZE ensures ByteAt(s', j, x) == ByteAt(s, j, x) {
      MetaByte(sb, s, s', j, x);
    }
    hide Addr, ByteAt;
    SameOwners(sb, s, s');
    forall j: nat | j < |s.itab| && j != i && Synced(sb, s, j) ensures Synced(sb, s', j) {
      if IBlock(sb, j) == IBlock(sb, i) {
        PutInodeOther(s.disk[IBlock(sb, i)], i % IPB, s'.itab[i], j % IPB, s.itab[j]);
      }
    }
  }

  /** Metadata is in no file. */
  lemma MetaAddr(sb: Super, s: State, s': State, j: nat, m: nat)
    requires Owners(sb, s) && j < |s.itab| == |s'.itab| && m <= INDIRECT && s'.itab[j].addrs == s.itab[j].addrs
    requires |s'.disk| == |s.disk| && forall a: nat :: sb.nmeta <= a < |s.disk| ==> s'.disk[a] == s.disk[a]
    ensures Addr(s', j, m) == Addr(s, j, m)
  {
    if Addr(s, j, INDIRECT) != 0 {
      SlotBlock(sb, s, j, INDIRECT);
    }
    if NDIRECT <= m < INDIRECT {
      AddrFrame(s, s', j, m);
    }
  }

  lemma MetaByte(sb: Super, s: State, s': State, j: nat, x: nat)
    requires Owners(sb, s) && j < |s.itab| == |s'.itab| && x < MAXFILE * BSIZE && s'.itab[j].addrs == s.itab[j].addrs
    requires |s'.disk| == |s.disk| && forall a: nat :: sb.nmeta <= a < |s.disk| ==> s'.disk[a] == s.disk[a]
    ensures ByteAt(s', j, x) == ByteAt(s, j, x)
  {
    MetaAddr(sb, s, s', j, x / BSIZE);
    if Addr(s, j, x / BSIZE) != 0 {
      SlotBlock(sb, s, j, x / BSIZE);
    }
  }

  // ---------- reading off slots ----------

  lemma SlotsOf(s: State, i: nat, k: nat)
    requires i < |s.itab|
    ensures Addr(s, i, INDIRECT) == s.itab[i].addrs[NDIRECT]
    ensures k < NDIRECT ==> Addr(s, i, k) == s.itab[i].addrs[k]
    ensures var a := s.itab[i].addrs[NDIRECT];
            NDIRECT <= k < MAXFILE && 0 < a < |s.disk| ==> Addr(s, i, k) == Word(s.disk[a], k - NDIRECT)
    ensures NDIRECT <= k < MAXFILE && s.itab[i].addrs[NDIRECT] == 0 ==> Addr(s, i, k) == 0
  {
  }

  lemma AddedSlot(sb: Super, s: State, s': State, i: nat, k: nat, b: nat)
    requires Layout(sb) && |s.disk| == sb.size && i < |s.itab| == sb.ninodes && k <= INDIRECT
    requires Added(sb, s, s', i, k, b)
    ensures Owners(sb, s') && i < |s'.itab| && Addr(s', i, k) == b
  {
    hide Addr;
  }

  /** A new indirect block lists nothing. */
  lemma AddedIndirect(sb: Super, s: State, s': State, i: nat, b: nat, k: nat)
    requires Owners(sb, s) && i < |s.itab| && Added(sb, s, s', i, INDIRECT, b) && NDIRECT <= k < MAXFILE
    requires Addr(s, i, INDIRECT) == 0
    ensures |s'.itab| == |s.itab| && Addr(s', i, k) == 0 && Addr(s, i, k) == 0
  {
  }

  lemma GotNothing(sb: Super, s: State, i: nat, k: nat)
    requires Owners(sb, s) && i < |s.itab| && k < MAXFILE && Addr(s, i, k) != 0
    ensures Got(sb, s, s, i, k, k + 1) && Need(s, i, k, k + 1) == 0
  {
    OthersSelf(sb, s, i);
    assert Missing(s, i, k, k) == 0;
  }
}
