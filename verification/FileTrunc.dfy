/**
 Truncation (fs.c): freeing the blocks of a file one by one, direct blocks first, then those
 that the indirect block lists, then the indirect block.
 */
module FileTrunc {

  import opened Basics
  import opened Blocks
  import opened FileState
  import opened FileLog
  import opened LogCrash

  ghost predicate OwnedBy(s: State, i: nat, b: nat) {
    b in s.owner && s.owner[b].inum == i
  }

  ghost function Disowned(owner: map<nat, Slot>, i: nat): map<nat, Slot> {
    map b | b in owner && owner[b].inum != i :: owner[b]
  }

  /** The blocks in the first k slots of file i have been freed, and nothing else on disk differs from `s`. */
  ghost predicate Freed(sb: Super, s: State, disk: seq<Block>, i: nat, k: nat)
    requires Layout(sb) && |s.disk| == sb.size
  {
    && SameOutside(sb, s.disk, disk, {})
    && forall b: nat :: b < sb.size ==>
         (Used(sb, disk, b) <==> Used(sb, s.disk, b) && !(OwnedBy(s, i, b) && s.owner[b].k < k))
  }

  lemma FreedStart(sb: Super, s: State, i: nat)
    requires Layout(sb) && |s.disk| == sb.size
    ensures Freed(sb, s, s.disk, i, 0)
  {
    hide Used;
  }

  lemma FreedSize(sb: Super, s: State, disk: seq<Block>, i: nat, k: nat)
    requires Layout(sb) && |s.disk| == sb.size && Freed(sb, s, disk, i, k)
    ensures |disk| == sb.size
  {
  }

  /** An empty slot needs no freeing; a full one holds a block that is still marked used. */
  lemma FreedNext(sb: Super, s: State, disk: seq<Block>, i: nat, k: nat)
    requires Inv(sb, s) && i < |s.itab| && k <= INDIRECT && Freed(sb, s, disk, i, k)
    ensures Addr(s, i, k) == 0 ==> Freed(sb, s, disk, i, k + 1)
    ensures Addr(s, i, k) != 0 ==> Addr(s, i, k) < sb.size && |disk| == sb.size && Used(sb, disk, Addr(s, i, k))
  {
    hide Addr, Used;
    if Addr(s, i, k) != 0 {
      SlotBlock(sb, s, i, k);
    } else {
      forall b: nat | b < sb.size && OwnedBy(s, i, b) && s.owner[b].k < k + 1 ensures s.owner[b].k < k {
      }
    }
  }

  lemma FreedMore(sb: Super, s: State, disk: seq<Block>, disk': seq<Block>, i: nat, k: nat)
    requires Inv(sb, s) && i < |s.itab| && k <= INDIRECT && Freed(sb, s, disk, i, k) && Addr(s, i, k) != 0
    requires |disk| == sb.size && SameOutside(sb, disk, disk', {})
    requires forall c: nat :: c < sb.size ==> (Used(sb, disk', c) <==> c != Addr(s, i, k) && Used(sb, disk, c))
    ensures Freed(sb, s, disk', i, k + 1)
  {
    hide Addr, Used;
    SlotBlock(sb, s, i, k);
    forall b: nat | b < sb.size && OwnedBy(s, i, b) && s.owner[b].k == k ensures b == Addr(s, i, k) {
    }
  }

  lemma IndirectKept(sb: Super, s: State, disk: seq<Block>, i: nat, k: nat)
    requires Inv(sb, s) && i < |s.itab| && Freed(sb, s, disk, i, k) && Addr(s, i, INDIRECT) != 0
    ensures Addr(s, i, INDIRECT) < |s.disk| == |disk| && disk[Addr(s, i, INDIRECT)] == s.disk[Addr(s, i, INDIRECT)]
  {
    hide Addr, Used;
    SlotBlock(sb, s, i, INDIRECT);
  }

  /** Without an indirect block there is nothing past the direct slots. */
  lemma FreedRest(sb: Super, s: State, disk: seq<Block>, i: nat)
    requires Inv(sb, s) && i < |s.itab| && Freed(sb, s, disk, i, NDIRECT) && s.itab[i].addrs[NDIRECT] == 0
    ensures Freed(sb, s, disk, i, INDIRECT + 1)
  {
    hide Used;
    forall b: nat | b < sb.size && OwnedBy(s, i, b) ensures s.owner[b].k < NDIRECT {
    }
  }

  lemma TruncatedInv(sb: Super, s: State, s': State, i: nat)
    requires Inv(sb, s) && i < |s.itab| && Freed(sb, s, s'.disk, i, INDIRECT + 1)
    requires |s'.itab| == |s.itab| && s'.itab == s.itab[i := s'.itab[i]]
    requires (forall m: nat :: m <= NDIRECT ==> s'.itab[i].addrs[m] == 0) && s'.owner == Disowned(s.owner, i)
    ensures Inv(sb, s') && OthersKept(sb, s, s', i)
    ensures forall k: nat :: k <= INDIRECT ==> Addr(s', i, k) == 0
  {
    hide Addr, ByteAt, Synced, Used, Owned, Slots, OthersKept;
    OthersFrame(sb, s, s', i, {});
    forall k: nat | k <= INDIRECT ensures Addr(s', i, k) == 0 {
      NoAddrs(s', i, k);
    }
    OthersOwned(sb, s, s', i);
    FreedBitmap(sb, s, s', i);
  }

  lemma FreedBitmap(sb: Super, s: State, s': State, i: nat)
    requires Inv(sb, s) && Freed(sb, s, s'.disk, i, INDIRECT + 1) && s'.owner == Disowned(s.owner, i)
    requires |s'.disk| == sb.size
    ensures Bitmap(sb, s')
  {
    hide Addr, Used, Slots;
  }

  lemma NoAddrs(s: State, i: nat, k: nat)
    requires i < |s.itab| && k <= INDIRECT && forall m: nat :: m <= NDIRECT ==> s.itab[i].addrs[m] == 0
    ensures Addr(s, i, k) == 0
  {
  }

  lemma OthersOwned(sb: Super, s: State, s': State, i: nat)
    requires Inv(sb, s) && i < |s.itab| && OthersKept(sb, s, s', i) && s'.owner == Disowned(s.owner, i)
    requires forall k: nat :: k <= INDIRECT ==> Addr(s', i, k) == 0
    ensures Owned(sb, s') && Slots(s')
  {
    hide Addr, ByteAt, Synced, Used, Bitmap;
    forall b | b in s'.owner
      ensures && sb.nmeta <= b < sb.size && s'.owner[b].inum < |s'.itab| && s'.owner[b].k <= INDIRECT
              && Addr(s', s'.owner[b].inum, s'.owner[b].k) == b
    {
      assert b in s.owner;
    }
  }

  lemma Truncated(sb: Super, s: State, s1: State, s': State, i: nat)
    requires Inv(sb, s) && i < |s.itab| && Inv(sb, s1) && OthersKept(sb, s, s1, i) && s1.itab[i].size == 0
    requires forall k: nat :: k <= INDIRECT ==> Addr(s1, i, k) == 0
    requires s' == State(s1.disk[IBlock(sb, i) := PutInode(s1.disk[IBlock(sb, i)], i % IPB, s1.itab[i])], s1.itab,
               s1.owner)
    requires Freed(sb, s, s1.disk, i, INDIRECT + 1)
    ensures Inv(sb, s') && FileOk(sb, s', i) && OthersKept(sb, s, s', i)
    ensures forall b: nat :: b < sb.size ==> (Used(sb, s'.disk, b) <==> Used(sb, s.disk, b) && !OwnedBy(s, i, b))
  {
    hide Addr, ByteAt, Synced, Slots, OthersKept, Bit;
    InodeWritten(sb, s1, s', i);
    InodeMap(sb, s1, s', i);
    OthersTwice(sb, s, s1, s', i);
    forall b: nat | b < sb.size ensures Used(sb, s'.disk, b) <==> Used(sb, s.disk, b) && !OwnedBy(s, i, b) {
      assert BBlock(sb, b) != IBlock(sb, i);
    }
  }

  /** A change to a block of inodes leaves the free map right. */
  lemma InodeMap(sb: Super, s: State, s': State, i: nat)
    requires Inv(sb, s) && i < |s.itab| && s'.owner == s.owner && |s'.disk| == |s.disk|
    requires forall m: nat :: m < |s.disk| && m != IBlock(sb, i) ==> s'.disk[m] == s.disk[m]
    ensures Bitmap(sb, s')
  {
    hide Used;
    BitmapSame(sb, s, s');
  }

  // ---------- what it logs ----------

  /** The blocks of the free map that speak of the blocks in the first k slots of file i. */
  ghost function MapsOf(sb: Super, s: State, i: nat, k: nat): set<nat> {
    set b | b in s.owner && s.owner[b].inum == i && s.owner[b].k < k :: BBlock(sb, b)
  }

  /** Since the list was `lh0`, exactly those have been logged. */
  ghost predicate FreeLog(sb: Super, s: State, i: nat, k: nat, lh0: seq<Uint>, lh: seq<Uint>) {
    NoRepeats(lh) && forall c: nat :: c in lh <==> c in lh0 || c in MapsOf(sb, s, i, k)
  }

  /** How many blocks the list then has. */
  ghost function FreeSize(sb: Super, s: State, i: nat, k: nat, lh0: seq<Uint>): nat {
    |Blocknos(lh0) + MapsOf(sb, s, i, k)|
  }

  lemma FreeLogSize(sb: Super, s: State, i: nat, k: nat, lh0: seq<Uint>, lh: seq<Uint>)
    requires FreeLog(sb, s, i, k, lh0, lh)
    ensures |lh| == FreeSize(sb, s, i, k, lh0) && NoRepeats(lh)
  {
    hide MapsOf, NoRepeats;
    SizeExactly(lh, Blocknos(lh0) + MapsOf(sb, s, i, k));
  }

  lemma FreeLogStart(sb: Super, s: State, i: nat, lh: seq<Uint>)
    requires NoRepeats(lh)
    ensures FreeLog(sb, s, i, 0, lh, lh)
  {
  }

  lemma FreeLogNext(sb: Super, s: State, i: nat, k: nat, lh0: seq<Uint>, lh: seq<Uint>, lh': seq<Uint>)
    requires Inv(sb, s) && i < |s.itab| && k <= INDIRECT && FreeLog(sb, s, i, k, lh0, lh)
    requires NoRepeats(lh') && if Addr(s, i, k) == 0 then lh' == lh
                               else forall c: nat :: c in lh' <==> c in lh || c == BBlock(sb, Addr(s, i, k))
    ensures FreeLog(sb, s, i, k + 1, lh0, lh')
  {
    hide NoRepeats;
    MapsNext(sb, s, i, k);
    hide Addr, Used, Bitmap, Owned, Slots, MapsOf;
  }

  /** The next slot adds its block's map block, if it has a block. */
  lemma MapsNext(sb: Super, s: State, i: nat, k: nat)
    requires Inv(sb, s) && i < |s.itab| && k <= INDIRECT
    ensures MapsOf(sb, s, i, k + 1)
            == MapsOf(sb, s, i, k) + if Addr(s, i, k) == 0 then {} else {BBlock(sb, Addr(s, i, k))}
  {
    hide Addr, Used, Bitmap;
    var a, m, m' := Addr(s, i, k), MapsOf(sb, s, i, k), MapsOf(sb, s, i, k + 1);
    if a != 0 {
      SlotBlock(sb, s, i, k);
    }
    forall c | c in m' ensures c in m || (a != 0 && c == BBlock(sb, a)) {
      var b :| b in s.owner && s.owner[b].inum == i && s.owner[b].k < k + 1 && c == BBlock(sb, b);
      assert s.owner[b].k == k ==> Addr(s, i, k) == b;
    }
  }

  lemma MapsGrow(sb: Super, s: State, i: nat, k: nat, k': nat)
    requires k <= k'
    ensures MapsOf(sb, s, i, k) <= MapsOf(sb, s, i, k')
  {
  }

  /** A list that is full before the end is full at the end. */
  lemma FullAtEnd(sb: Super, s: State, i: nat, k: nat, k': nat, lh0: seq<Uint>, nlog: nat)
    requires k <= k' && TooBig(FreeSize(sb, s, i, k, lh0), nlog)
    ensures TooBig(FreeSize(sb, s, i, k', lh0), nlog)
  {
    hide MapsOf;
    MapsGrow(sb, s, i, k, k');
    SubsetSize(Blocknos(lh0) + MapsOf(sb, s, i, k), Blocknos(lh0) + MapsOf(sb, s, i, k'));
  }

  /** On a disk with one map block a truncation adds at most that block before the inode's. */
  lemma OneMapBlock(sb: Super, s: State, i: nat, k: nat, lh0: seq<Uint>)
    requires Inv(sb, s) && sb.size < BPB
    ensures FreeSize(sb, s, i, k, lh0) <= |lh0| + 1
  {
    MapsOne(sb, s, i, k);
    hide MapsOf, Inv, Blocknos;
    BlocknosSize(lh0);
    SubsetSize(Blocknos(lh0) + MapsOf(sb, s, i, k), Blocknos(lh0) + {sb.bmapstart});
  }

  lemma MapsOne(sb: Super, s: State, i: nat, k: nat)
    requires Inv(sb, s) && sb.size < BPB
    ensures MapsOf(sb, s, i, k) <= {sb.bmapstart}
  {
    hide Addr, Used, Slots, Bitmap;
    forall c | c in MapsOf(sb, s, i, k) ensures c == sb.bmapstart {
      var b :| b in s.owner && s.owner[b].inum == i && s.owner[b].k < k && c == BBlock(sb, b);
      assert b < sb.size;
    }
  }

  /** Without an indirect block there are no map blocks past the direct slots. */
  lemma MapsRest(sb: Super, s: State, i: nat)
    requires Inv(sb, s) && i < |s.itab| && s.itab[i].addrs[NDIRECT] == 0
    ensures MapsOf(sb, s, i, INDIRECT + 1) == MapsOf(sb, s, i, NDIRECT)
  {
    hide Used, Bitmap;
    forall b | b in s.owner && s.owner[b].inum == i ensures s.owner[b].k < NDIRECT {
    }
    MapsGrow(sb, s, i, NDIRECT, INDIRECT + 1);
  }

  lemma FreeLogRest(sb: Super, s: State, i: nat, lh0: seq<Uint>, lh: seq<Uint>)
    requires Inv(sb, s) && i < |s.itab| && s.itab[i].addrs[NDIRECT] == 0 && FreeLog(sb, s, i, NDIRECT, lh0, lh)
    ensures FreeLog(sb, s, i, INDIRECT + 1, lh0, lh)
  {
    hide MapsOf;
    MapsRest(sb, s, i);
  }

  lemma FreeLogEnds(sb: Super, s: State, i: nat, lh0: seq<Uint>, lh: seq<Uint>, lh': seq<Uint>)
    requires FreeLog(sb, s, i, INDIRECT + 1, lh0, lh)
    requires forall c :: c in lh' <==> c in lh || c == IBlock(sb, i)
    ensures forall c: nat :: c in lh' <==> c in lh0 || c in MapsOf(sb, s, i, INDIRECT + 1) || c == IBlock(sb, i)
  {
    hide MapsOf;
  }
}
