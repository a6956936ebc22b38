/**
 filewrite (file.c): a write of any length is cut into chunks that each fit in one
 transaction of the log.
 */
module FileWrite {

  import opened Basics
  import opened Blocks
  import opened FileState
  import opened FileContents
  import opened FileLog
  import opened LogCrash
  import opened Fs

  /** The largest chunk: ((LOGSIZE-1-1-2) / 2) * 512 */
  const CHUNK: nat := (LOGSIZE - 1 - 1 - 2) / 2 * 512

  // ---------- how many blocks a write logs ----------

  /** The blocks of file i in slots `from..to`. */
  ghost function DataBlocks(owner: map<nat, Slot>, i: nat, from: nat, to: nat): (bs: set<nat>)
    requires from <= to && OneEach(owner)
    ensures |bs| <= to - from
    ensures forall c :: c in bs <==> c in owner && owner[c].inum == i && from <= owner[c].k < to
  {
    if from == to then {}
    else DataBlocks(owner, i, from, to - 1) + InSlot(owner, Slot(i, to - 1))
  }

  /** The block in a slot, if there is one. */
  ghost function InSlot(owner: map<nat, Slot>, t: Slot): (bs: set<nat>)
    requires OneEach(owner)
    ensures |bs| <= 1
    ensures forall c :: c in bs <==> c in owner && owner[c] == t
  {
    if exists c :: c in owner && owner[c] == t then
      var c :| c in owner && owner[c] == t;
      {c}
    else {}
  }

  /** With all slots filled there is a block for each. */
  lemma {:induction false} DataCount(sb: Super, s: State, i: nat, from: nat, to: nat)
    requires Owners(sb, s) && OneEach(s.owner) && i < |s.itab| && from <= to <= MAXFILE
    requires forall k: nat :: from <= k < to ==> Addr(s, i, k) != 0
    ensures |DataBlocks(s.owner, i, from, to)| == to - from
  {
    hide Addr, OneEach, Owned, Slots, InSlot, DataBlocks;
    DataNext(s.owner, i, from, to);
    if from < to {
      DataCount(sb, s, i, from, to - 1);
      SlotBlock(sb, s, i, to - 1);
      var a := Addr(s, i, to - 1);
      assert InSlot(s.owner, Slot(i, to - 1)) == {a} by { InSlotOne(s.owner, Slot(i, to - 1), a); }
      assert a !in DataBlocks(s.owner, i, from, to - 1);
    }
  }

  lemma DataNext(owner: map<nat, Slot>, i: nat, from: nat, to: nat)
    requires from <= to && OneEach(owner)
    ensures DataBlocks(owner, i, from, to) ==
              if from == to then {} else DataBlocks(owner, i, from, to - 1) + InSlot(owner, Slot(i, to - 1))
  {
    hide InSlot, OneEach;
  }

  lemma InSlotOne(owner: map<nat, Slot>, t: Slot, a: nat)
    requires OneEach(owner) && a in owner && owner[a] == t
    ensures InSlot(owner, t) == {a}
  {
    forall c | c in InSlot(owner, t) ensures c == a {
    }
  }

  /** On a disk with one bitmap block, a write to `to - from` blocks logs at most three more. */
  lemma LoggedBlocks(sb: Super, s: State, i: nat, from: nat, to: nat, lh: seq<Uint>)
    requires from <= to && OneEach(s.owner) && NoRepeats(lh) && sb.size < BPB
    requires Within(sb, s, i, from, to, [], lh)
    ensures |lh| <= to - from + 3
  {
    var data := DataBlocks(s.owner, i, from, to);
    var ind := InSlot(s.owner, Slot(i, INDIRECT));
    var bs := data + ind + {IBlock(sb, i), sb.bmapstart};
    forall c | c in lh ensures c in bs {
      assert Touched(sb, s, i, from, to, c);
    }
    SizeWithin(lh, bs);
  }

  /** A chunk spans at most 14 blocks, so it logs at most 17, and log_write's guard stays quiet. */
  lemma ChunkFits(sb: Super, s: State, i: nat, off: nat, n: nat, lh: seq<Uint>)
    requires 0 < n <= CHUNK && OneEach(s.owner) && NoRepeats(lh) && sb.size < BPB
    requires Within(sb, s, i, off / BSIZE, End(off, n), [], lh)
    ensures |lh| <= 17 && !TooBig(|lh|, LOGSIZE)
  {
    assert off / BSIZE <= End(off, n) <= off / BSIZE + 14;
    LoggedBlocks(sb, s, i, off / BSIZE, End(off, n), lh);
  }

  /** How many blocks a write logs: its data blocks, and what its allocations and growth add. */
  ghost function LogCount(s: State, i: nat, src: seq<Byte>, off: nat): nat
    requires i < |s.itab| && off + |src| <= MAXFILE * BSIZE && off / BSIZE <= End(off, |src|) <= MAXFILE
  {
    End(off, |src|) - off / BSIZE
    + (if EntryMissing(s, i, off / BSIZE, End(off, |src|)) then 1 else 0)
    + (if Need(s, i, off / BSIZE, End(off, |src|)) > 0 then 1 else 0)
    + (if Grows(s, i, src, off) then 1 else 0)
  }

  /** The blocks of the free map, of which there is one, that have changed. */
  lemma MapCount(sb: Super, s: State, s': State, c: nat)
    requires sb.size < BPB && OwnersKept(s, s') && forall b :: b in s'.owner ==> b < sb.size
    ensures NewMap(sb, s, s', c) <==> c == sb.bmapstart && |s'.owner| > |s.owner|
  {
    var keys, keys' := s.owner.Keys, s'.owner.Keys;
    assert |s.owner| == |keys| && |s'.owner| == |keys'|;
    assert keys <= keys';
    if |keys'| > |keys| {
      var new' := keys' - keys;
      assert keys' == keys + new';
      assert new' != {};
      var b :| b in new';
      assert b in s'.owner && b !in s.owner && BBlock(sb, b) == sb.bmapstart;
    } else {
      assert keys' == keys + (keys' - keys);
      assert |keys' - keys| == 0;
      assert keys' == keys;
      forall b | b in s'.owner ensures b in s.owner {
        assert b in keys';
      }
    }
  }

  /** On a disk with one bitmap block, exactly so many blocks are logged. */
  lemma LoggedExactly(sb: Super, s: State, s': State, i: nat, src: seq<Byte>, off: nat, lh: seq<Uint>)
    requires Owners(sb, s) && i < |s.itab| && off <= s.itab[i].size <= MAXFILE * BSIZE && off + |src| <= MAXFILE * BSIZE
    requires off / BSIZE <= End(off, |src|) <= MAXFILE && Spliced(sb, s, s', i, src, off)
    requires OneEach(s'.owner) && NoRepeats(lh) && sb.size < BPB && LogOfWrite(sb, s, s', i, src, off, [], lh)
    ensures |lh| == LogCount(s, i, src, off)
  {
    hide Spliced, Need, LogOfWrite, LogSet, LogCount, Addr, DataBlocks, Owned, Slots, NewMap, EntryMissing, Grows, End,
         OneEach, NoRepeats, OwnersKept;
    SplicedSlots(sb, s, s', i, src, off);
    DataCount(sb, s', i, off / BSIZE, End(off, |src|));
    LogSetSize(sb, s, s', i, src, off);
    forall c: nat ensures c in lh <==> c in LogSet(sb, s, s', i, src, off) {
      LoggedOne(sb, s, s', i, src, off, lh, c);
      InLogSet(sb, s, s', i, src, off, c);
    }
    SizeExactly(lh, LogSet(sb, s, s', i, src, off));
  }

  function IfSo(b: bool, c: nat): set<nat> {
    if b then {c} else {}
  }

  /** The blocks that a write logs, as a set. */
  ghost function LogSet(sb: Super, s: State, s': State, i: nat, src: seq<Byte>, off: nat): set<nat>
    requires i < |s.itab| == |s'.itab| && off / BSIZE <= End(off, |src|) <= MAXFILE && OneEach(s'.owner)
  {
    DataBlocks(s'.owner, i, off / BSIZE, End(off, |src|))
    + IfSo(EntryMissing(s, i, off / BSIZE, End(off, |src|)), Addr(s', i, INDIRECT))
    + IfSo(Need(s, i, off / BSIZE, End(off, |src|)) > 0, sb.bmapstart)
    + IfSo(Grows(s, i, src, off), IBlock(sb, i))
  }

  lemma LogSetSize(sb: Super, s: State, s': State, i: nat, src: seq<Byte>, off: nat)
    requires Owners(sb, s') && i < |s.itab| == |s'.itab| && off + |src| <= MAXFILE * BSIZE
    requires off / BSIZE <= End(off, |src|) <= MAXFILE && OneEach(s'.owner)
    requires EntryMissing(s, i, off / BSIZE, End(off, |src|)) ==> Addr(s', i, INDIRECT) != 0
    requires |DataBlocks(s'.owner, i, off / BSIZE, End(off, |src|))| == End(off, |src|) - off / BSIZE
    ensures |LogSet(sb, s, s', i, src, off)| == LogCount(s, i, src, off)
  {
    hide Need, Addr, DataBlocks, Owned, Slots, EntryMissing, Grows, End, OneEach;
    Parted(sb, s', i, off / BSIZE, End(off, |src|), DataBlocks(s'.owner, i, off / BSIZE, End(off, |src|)),
           IfSo(EntryMissing(s, i, off / BSIZE, End(off, |src|)), Addr(s', i, INDIRECT)),
           IfSo(Need(s, i, off / BSIZE, End(off, |src|)) > 0, sb.bmapstart),
              IfSo(Grows(s, i, src, off), IBlock(sb, i)));
  }

  lemma SplicedSize(sb: Super, s: State, s': State, i: nat, src: seq<Byte>, off: nat)
    requires Owners(sb, s) && i < |s.itab| && off <= s.itab[i].size <= MAXFILE * BSIZE && off + |src| <= MAXFILE * BSIZE
    requires End(off, |src|) <= MAXFILE && Spliced(sb, s, s', i, src, off)
    ensures |s'.itab| == |s.itab| && s'.itab[i].size == Max(s.itab[i].size, off + |src|) <= MAXFILE * BSIZE
    ensures s'.itab[i].kind == s.itab[i].kind && OwnersKept(s, s')
  {
    hide Addr, Need, Contents, Splice, Synced, Bare, Tight, Placed;
  }

  lemma SplicedSlots(sb: Super, s: State, s': State, i: nat, src: seq<Byte>, off: nat)
    requires Owners(sb, s) && i < |s.itab| && off <= s.itab[i].size <= MAXFILE * BSIZE && off + |src| <= MAXFILE * BSIZE
    requires End(off, |src|) <= MAXFILE && Spliced(sb, s, s', i, src, off)
    ensures Owners(sb, s') && |s'.itab| == |s.itab| && OwnersKept(s, s') && forall b :: b in s'.owner ==> b < sb.size
    ensures |s'.owner| == |s.owner| + Need(s, i, off / BSIZE, End(off, |src|))
    ensures forall k: nat :: off / BSIZE <= k < End(off, |src|) ==> Addr(s', i, k) != 0
    ensures EntryMissing(s, i, off / BSIZE, End(off, |src|)) ==> Addr(s', i, INDIRECT) != 0
  {
    hide Addr, Need, OthersKept, Contents, Splice, Synced, Bare, Tight;
  }

  lemma LoggedOne(sb: Super, s: State, s': State, i: nat, src: seq<Byte>, off: nat, lh: seq<Uint>, c: nat)
    requires Owners(sb, s') && i < |s.itab| == |s'.itab| && LogOfWrite(sb, s, s', i, src, off, [], lh)
    requires EntryMissing(s, i, off / BSIZE, End(off, |src|)) ==> Addr(s', i, INDIRECT) != 0
    ensures c in lh <==>
              || (c in s'.owner && s'.owner[c].inum == i && off / BSIZE <= s'.owner[c].k < End(off, |src|))
              || (EntryMissing(s, i, off / BSIZE, End(off, |src|)) && c == Addr(s', i, INDIRECT))
              || NewMap(sb, s, s', c) || (Grows(s, i, src, off) && c == IBlock(sb, i))
  {
    if EntryMissing(s, i, off / BSIZE, End(off, |src|)) {
      OnlyOwner(sb, s', i, INDIRECT, c);
    }
    hide Addr, Owned, Slots, EntryMissing, NewMap;
    assert c in lh <==> Wrote(sb, s, s', i, off / BSIZE, End(off, |src|), c)
                        || (Grows(s, i, src, off) && c == IBlock(sb, i));
  }

  lemma InLogSet(sb: Super, s: State, s': State, i: nat, src: seq<Byte>, off: nat, c: nat)
    requires i < |s.itab| == |s'.itab| && OwnersKept(s, s') && sb.size < BPB
    requires off / BSIZE <= End(off, |src|) <= MAXFILE && OneEach(s'.owner)
    requires |s'.owner| == |s.owner| + Need(s, i, off / BSIZE, End(off, |src|))
    requires forall b :: b in s'.owner ==> b < sb.size
    ensures c in LogSet(sb, s, s', i, src, off) <==>
              || (c in s'.owner && s'.owner[c].inum == i && off / BSIZE <= s'.owner[c].k < End(off, |src|))
              || (EntryMissing(s, i, off / BSIZE, End(off, |src|)) && c == Addr(s', i, INDIRECT))
              || NewMap(sb, s, s', c) || (Grows(s, i, src, off) && c == IBlock(sb, i))
  {
    hide Addr, EntryMissing, NewMap, Need, DataBlocks, Grows, End, OneEach, OwnersKept;
    MapCount(sb, s, s', c);
  }

  /** Data, indirect block, free map and inodes are different blocks. */
  lemma Parted(sb: Super, s: State, i: nat, from: nat, to: nat,
               data: set<nat>, ind: set<nat>, map': set<nat>, ino: set<nat>)
    requires Owners(sb, s) && i < |s.itab| && to <= MAXFILE
    requires forall c :: c in data ==> c in s.owner && s.owner[c].inum == i && from <= s.owner[c].k < to
    requires ind <= {Addr(s, i, INDIRECT)} && (ind != {} ==> Addr(s, i, INDIRECT) != 0)
    requires map' <= {sb.bmapstart} && ino <= {IBlock(sb, i)}
    ensures |data + ind + map' + ino| == |data| + |ind| + |map'| + |ino|
  {
    hide Addr;
    if ind != {} {
      SlotBlock(sb, s, i, INDIRECT);
    }
    assert data * ind == {};
    assert (data + ind) * map' == {};
    assert (data + ind + map') * ino == {};
  }

  /** Within a file without holes a write logs just the blocks it spans, however many that is. */
  lemma WithinFile(sb: Super, s: State, i: nat, src: seq<Byte>, off: nat)
    requires i < |s.itab| && off + |src| <= s.itab[i].size && Tight(s, i, s.itab[i].size)
    ensures off / BSIZE <= End(off, |src|) <= MAXFILE
    ensures LogCount(s, i, src, off) == End(off, |src|) - off / BSIZE
    ensures LogCount(s, i, src, off) > MAXOPBLOCKS <==> End(off, |src|) - off / BSIZE > MAXOPBLOCKS
  {
    hide Addr, Need;
    EndBound(off, |src|, |src|);
    NeedTight(s, i, s.itab[i].size, off, |src|);
    forall k: nat | off / BSIZE <= k < End(off, |src|) ensures k < MAXFILE ==> Addr(s, i, k) != 0 {
      assert k * BSIZE < off + |src|;
    }
  }

  // ---------- chunk after chunk ----------

  lemma SpliceNone(t: seq<Byte>, src: seq<Byte>, off: nat)
    requires off <= |t|
    ensures Splice(t, src[..0], off) == t
  {
  }

  lemma SpliceTwice(t: seq<Byte>, src: seq<Byte>, off: nat, k: nat, m: nat)
    requires off <= |t| && k + m <= |src|
    ensures off + k <= |Splice(t, src[..k], off)|
    ensures off + k + m <= |Splice(t, src[..k + m], off)|
    ensures Splice(Splice(t, src[..k], off), src[k..k + m], off + k) == Splice(t, src[..k + m], off)
  {
    var u := Splice(t, src[..k], off);
    assert src[..k + m] == src[..k] + src[k..k + m];
    assert u[..off + k] == t[..off] + src[..k];
    assert off + k + m < |u| ==> u[off + k + m..] == t[off + k + m..];
  }

  /** From `s` to `s'` the first `n` bytes of `src` have been written at `off`, in any number of chunks. */
  ghost predicate Chunks(sb: Super, s: State, s': State, i: nat, src: seq<Byte>, off: nat, n: nat)
    requires Owners(sb, s) && i < |s.itab| && off <= s.itab[i].size <= MAXFILE * BSIZE && n <= |src|
    requires off + n <= MAXFILE * BSIZE && End(off, n) <= MAXFILE
  {
    && Owners(sb, s') && OthersKept(sb, s, s', i)
    && s'.itab[i].size == Max(s.itab[i].size, off + n)
    && Contents(s', i) == Splice(Contents(s, i), src[..n], off)
    && Placed(s, s', i, off / BSIZE, End(off, n))
    && OwnersKept(s, s') && |s'.owner| == |s.owner| + Need(s, i, off / BSIZE, End(off, n))
    && (FileOk(sb, s, i) ==> FileOk(sb, s', i))
  }

  lemma ChunksNone(sb: Super, s: State, i: nat, src: seq<Byte>, off: nat)
    requires Owners(sb, s) && i < |s.itab| && off <= s.itab[i].size <= MAXFILE * BSIZE && End(off, 0) <= MAXFILE
    ensures Chunks(sb, s, s, i, src, off, 0)
  {
    OthersSelf(sb, s, i);
    ContentsSize(s, i);
    hide Addr, ByteAt, Synced, Owned, Slots, OthersKept, Contents, Tight;
    SpliceNone(Contents(s, i), src, off);
  }

  lemma ChunksMore(sb: Super, s0: State, s1: State, s2: State, i: nat, src: seq<Byte>, off: nat, n: nat, m: nat)
    requires Owners(sb, s0) && i < |s0.itab| && off <= s0.itab[i].size <= MAXFILE * BSIZE && n + m <= |src| && m > 0
    requires off + n + m <= MAXFILE * BSIZE && End(off, n) <= MAXFILE && End(off, n + m) <= MAXFILE
    requires Chunks(sb, s0, s1, i, src, off, n) && Owners(sb, s1) && End(off + n, m) <= MAXFILE
    requires off + n <= s1.itab[i].size <= MAXFILE * BSIZE && Spliced(sb, s1, s2, i, src[n..n + m], off + n)
    ensures Chunks(sb, s0, s2, i, src, off, n + m)
  {
    hide Addr, ByteAt, Synced, Owned, Slots, Contents, Need, Placed, Tight, Splice, Bare;
    EndTwice(off, n, m);
    OthersTwice(sb, s0, s1, s2, i);
    ContentsSize(s0, i);
    SpliceTwice(Contents(s0, i), src, off, n, m);
    PlacedTwice(s0, s1, s2, i, off / BSIZE, End(off, n), (off + n) / BSIZE, End(off + n, m));
  }

  lemma EndTwice(off: nat, n: nat, m: nat)
    requires m > 0
    ensures off / BSIZE <= (off + n) / BSIZE <= End(off, n) <= End(off + n, m) == End(off, n + m)
  {
  }

  /** How much of n bytes at `off` the chunks get to: all, or the whole chunks that fit in the longest file. */
  function Writable(off: nat, n: nat): (w: nat)
    requires off <= MAXFILE * BSIZE
    ensures w <= n && off + w <= MAXFILE * BSIZE
  {
    if off + n <= MAXFILE * BSIZE then n else (MAXFILE * BSIZE - off) / CHUNK * CHUNK
  }

  lemma ChunksSize(sb: Super, s: State, s': State, i: nat, src: seq<Byte>, off: nat, n: nat)
    requires Owners(sb, s) && i < |s.itab| && off <= s.itab[i].size <= MAXFILE * BSIZE && n <= |src|
    requires off + n <= MAXFILE * BSIZE && End(off, n) <= MAXFILE && Chunks(sb, s, s', i, src, off, n)
    ensures |s'.itab| == |s.itab| && off + n <= s'.itab[i].size <= MAXFILE * BSIZE
  {
    hide Addr, ByteAt, Synced, Owned, Slots, Contents, Need, Placed, Tight, Splice;
  }

  /** A chunk is refused exactly when the chunks before it are all that can be written. */
  lemma NextChunk(off: nat, n: nat, c: nat, m: nat)
    requires off <= MAXFILE * BSIZE && c * CHUNK < n && m == (if n - c * CHUNK > CHUNK then CHUNK else n - c * CHUNK)
    requires c * CHUNK <= Writable(off, n)
    ensures if off + c * CHUNK + m <= MAXFILE * BSIZE then c * CHUNK + m <= Writable(off, n)
            else c * CHUNK == Writable(off, n)
    ensures c * CHUNK + m < n ==> c * CHUNK + m == (c + 1) * CHUNK
  {
    var q := (MAXFILE * BSIZE - off) / CHUNK;
    if off + n > MAXFILE * BSIZE {
      Quotient(MAXFILE * BSIZE - off, c, m);
      assert Writable(off, n) == q * CHUNK;
    }
  }

  lemma Quotient(left: nat, c: nat, m: nat)
    requires c * CHUNK <= left / CHUNK * CHUNK && m <= CHUNK
    ensures c * CHUNK + m > left ==> c == left / CHUNK
    ensures m == CHUNK && c * CHUNK + m <= left ==> c * CHUNK + m <= left / CHUNK * CHUNK
  {
    var q := left / 6656;
    assert CHUNK == 6656 && q == left / CHUNK;
    assert left == 6656 * q + left % 6656;
    assert c <= q;
  }

  /** The owned blocks of a finished write fit on the disk. */
  lemma ChunksFit(sb: Super, s: State, s': State, i: nat, src: seq<Byte>, off: nat, n: nat)
    requires Owners(sb, s) && i < |s.itab| && off <= s.itab[i].size <= MAXFILE * BSIZE && n <= |src|
    requires off + n <= MAXFILE * BSIZE && End(off, n) <= MAXFILE && Chunks(sb, s, s', i, src, off, n) && Inv(sb, s')
    ensures |s.owner| + Need(s, i, off / BSIZE, End(off, n)) <= sb.size - sb.nmeta
  {
    hide Addr, ByteAt, Synced, Owned, Slots, Bitmap, Contents, Need, Placed, Tight, Splice;
    OwnedCount(sb, s');
  }

  /** A write of `w` bytes has met the full disk, when the chunks before byte `n` were in the file. */
  ghost predicate Halted(sb: Super, s: State, s': State, i: nat, src: seq<Byte>, off: nat, n: nat, w: nat)
    requires Owners(sb, s) && i < |s.itab| && off <= s.itab[i].size <= MAXFILE * BSIZE && End(off, w) <= MAXFILE
  {
    && n < w <= |src| && off + w <= MAXFILE * BSIZE && off <= |Contents(s, i)|
    && Stuck(sb, s, s', i, Need(s, i, off / BSIZE, End(off, w))) && |s'.itab| == |s.itab|
    && off + n <= |Splice(Contents(s, i), src[..n], off)|
    && (forall x: nat :: x < off + n ==> ByteAt(s', i, x) == Splice(Contents(s, i), src[..n], off)[x])
  }

  /** A chunk has met the full disk: so has the whole write, and the chunks before it are in the file. */
  lemma ChunkStuck(sb: Super, s0: State, s1: State, s2: State, i: nat, src: seq<Byte>, off: nat, n: nat, m: nat, w: nat)
    requires Owners(sb, s0) && i < |s0.itab| && off <= s0.itab[i].size <= MAXFILE * BSIZE && n + m <= w <= |src|
    requires m > 0
    requires off + w <= MAXFILE * BSIZE && End(off, n) <= MAXFILE && End(off + n, m) <= MAXFILE
    requires End(off, w) <= MAXFILE
    requires Chunks(sb, s0, s1, i, src, off, n) && |s1.itab| == |s0.itab| && |s1.disk| == |s0.disk| && Owners(sb, s1)
    requires Stuck(sb, s1, s2, i, Need(s1, i, (off + n) / BSIZE, End(off + n, m)))
    requires |s2.itab| == |s1.itab| && SameBefore(s1, s2, i, off + n)
    ensures Halted(sb, s0, s2, i, src, off, n, w)
    ensures |s0.owner| + Need(s0, i, off / BSIZE, End(off, w)) > sb.size - sb.nmeta
  {
    hide Addr, ByteAt, Synced, Owned, Slots, Need, Tight, Splice, Stuck, Placed, OthersKept;
    EndTwice(off, n, m);
    EndBound(off, n + m, w);
    MissingLater(s0, s1, i, off / BSIZE, End(off, n), (off + n) / BSIZE, End(off, n + m));
    NeedGrows(s0, i, off / BSIZE, End(off, n + m), End(off, w));
    StuckLater(sb, s0, s1, s2, i, Need(s0, i, off / BSIZE, End(off, n)),
               Need(s1, i, (off + n) / BSIZE, End(off, n + m)), Need(s0, i, off / BSIZE, End(off, w)));
    StuckFull(sb, s0, s2, i, Need(s0, i, off / BSIZE, End(off, w)));
    ContentsSize(s0, i);
    SpliceTwice(Contents(s0, i), src, off, n, 0);
    forall x: nat | x < off + n ensures ByteAt(s2, i, x) == Splice(Contents(s0, i), src[..n], off)[x] {
      assert ByteAt(s2, i, x) == ByteAt(s1, i, x) == Contents(s1, i)[x];
    }
  }

  lemma MissingLater(s0: State, s: State, i: nat, from: nat, mid: nat, from': nat, to: nat)
    requires i < |s0.itab| == |s.itab| && from <= from' <= mid <= to <= MAXFILE && from' < to
    requires Placed(s0, s, i, from, mid)
    ensures Need(s0, i, from, to) == Need(s0, i, from, mid) + Need(s, i, from', to)
  {
    hide Addr, Missing;
    MissingTwice(s0, s, i, from, mid, from', to);
  }

  class File {
    const fs: Fs
    var off: Uint

    constructor (fs: Fs, off: Uint)
      ensures this.fs == fs && this.off == off
    {
      this.fs, this.off := fs, off;
    }

    /** The open file is a file on disk, whose free map is one block and whose log is as mkfs makes it. */
    ghost predicate Ready()
      reads this, fs
    {
      && fs.Valid() && fs.ip.size <= MAXFILE * BSIZE && fs.ip.kind % 0x1_0000 != 3
      && fs.sb.size < BPB && fs.nlog == LOGSIZE
    }

    ghost function Bytes(): seq<Byte>
      reads this, fs
      requires Ready()
    {
      Contents(fs.Now(), fs.inum)
    }

    /** One transaction of filewrite's loop: begin_op, writei, end_op. */
    method WriteChunk(src: seq<Byte>) returns (out: Outcome, r: int)
      requires Ready() && 0 < |src| <= CHUNK
      modifies this`off, fs`disk, fs`ip, fs`lh, fs`itab, fs`owner, fs`start
      ensures |fs.lh| <= 17 && fs.inum < |fs.itab| && (out == Done || out == OutOfBlocks)
      ensures fs.start == old(fs.disk) && (out == Done ==> Ready())
      ensures old(off) > old(fs.ip.size) || old(off) + |src| > MAXFILE * BSIZE ==>
                out == Done && r == -1 && off == old(off) && fs.Now() == old(fs.Now()) && fs.ip == old(fs.ip)
      ensures old(off) <= old(fs.ip.size) && old(off) + |src| <= MAXFILE * BSIZE ==>
                && old(off) / BSIZE <= End(old(off), |src|) <= MAXFILE
                && (out == OutOfBlocks <==> old(fs.TooFew(off / BSIZE, End(off, |src|))))
                && (out == Done ==>
                      && r == |src| && off == old(off) + |src|
                      && Spliced(fs.sb, old(fs.Now()), fs.Now(), fs.inum, src, old(off))
                      && |fs.lh| == LogCount(old(fs.Now()), fs.inum, src, old(off))
                      && Within(fs.sb, fs.Now(), fs.inum, old(off) / BSIZE, End(old(off), |src|), [], fs.lh))
                && (out == OutOfBlocks ==>
                      && off == old(off)
                      && Stuck(fs.sb, old(fs.Now()), fs.Now(), fs.inum,
                               Need(old(fs.Now()), fs.inum, old(off) / BSIZE, End(old(off), |src|)))
                      && SameBefore(old(fs.Now()), fs.Now(), fs.inum, old(off)))
    {
      hide Bitmap, Owned, Slots, Spliced, Stuck, SameBefore, Within, OneEach, LogOfWrite, LogCount, Need, TooBig;
      ghost var s0 := fs.Now();
      fs.lh, fs.start := [], fs.disk;
      CoveredSelf(fs.disk, []);
      out, r := fs.Writei(src, off, NoDrivers());
      if off <= s0.itab[fs.inum].size && off + |src| <= MAXFILE * BSIZE {
        EndBound(off, |src|, |src|);
        ChunkFits(fs.sb, fs.Now(), fs.inum, off, |src|, fs.lh);
        if out == Done {
          SplicedSize(fs.sb, s0, fs.Now(), fs.inum, src, off);
          LoggedExactly(fs.sb, s0, fs.Now(), fs.inum, src, off, fs.lh);
        }
      }
      if out == Done && r > 0 {
        off := off + r;
      }
    }

    /**
     Writes `src` at the file's offset, chunk by chunk.  All of it is written if it starts within
     the file and ends within the longest file, and otherwise the whole chunks that do; the disk
     is full exactly if there are fewer free blocks than those take.
     */
    method Filewrite(src: seq<Byte>) returns (out: Outcome, r: int)
      requires Ready() && |src| < 0x8000_0000
      modifies this`off, fs`disk, fs`ip, fs`lh, fs`itab, fs`owner, fs`start
      ensures fs.inum < |fs.itab| && (out == Done || out == OutOfBlocks)
      ensures out == Done ==> Ready()
      ensures old(off) > old(fs.ip.size) ==>
                && out == Done && r == (if |src| == 0 then 0 else -1)
                && off == old(off) && fs.Now() == old(fs.Now()) && fs.ip == old(fs.ip)
      ensures old(off) <= old(fs.ip.size) ==>
                var w := Writable(old(off), |src|);
                && old(off) / BSIZE <= End(old(off), w) <= MAXFILE
                && (out == OutOfBlocks <==> old(fs.TooFew(off / BSIZE, End(off, w))))
                && (out == Done ==>
                      && r == (if w == |src| then |src| else -1) && off == old(off) + w
                      && Chunks(fs.sb, old(fs.Now()), fs.Now(), fs.inum, src, old(off), w))
                && (out == OutOfBlocks ==>
                      && old(off) <= off
                      && Halted(fs.sb, old(fs.Now()), fs.Now(), fs.inum, src, old(off), off - old(off), w))
    {
      hide Bitmap, Owned, Slots, Spliced, Stuck, SameBefore, Chunks, Need, LogCount, Halted;
      if off <= fs.ip.size {
        out, r := WriteChunks(src);
      } else if |src| > 0 {
        out, r := WriteChunk(if |src| > CHUNK then src[..CHUNK] else src);
      } else {
        out, r := Done, 0;
      }
    }

    /** filewrite's loop, for an offset within the file. */
    method WriteChunks(src: seq<Byte>) returns (out: Outcome, r: int)
      requires Ready() && off <= fs.ip.size
      modifies this`off, fs`disk, fs`ip, fs`lh, fs`itab, fs`owner, fs`start
      ensures fs.inum < |fs.itab| && (out == Done || out == OutOfBlocks)
      ensures out == Done ==> Ready()
      ensures var w := Writable(old(off), |src|);
              && old(off) / BSIZE <= End(old(off), w) <= MAXFILE
              && (out == OutOfBlocks <==> old(fs.TooFew(off / BSIZE, End(off, w))))
              && (out == Done ==>
                    && r == (if w == |src| then |src| else -1) && off == old(off) + w
                    && Chunks(fs.sb, old(fs.Now()), fs.Now(), fs.inum, src, old(off), w))
              && (out == OutOfBlocks ==>
                    && old(off) <= off
                    && Halted(fs.sb, old(fs.Now()), fs.Now(), fs.inum, src, old(off), off - old(off), w))
    {
      hide Bitmap, Owned, Slots, Spliced, Stuck, SameBefore, Chunks, Need, LogCount, Halted, End, Writable;
      ghost var s0, o, w := fs.Now(), off, Writable(off, |src|);
      ghost var c := 0;
      var i, n := 0, |src|;
      EndBound(o, 0, w);
      ChunksNone(fs.sb, s0, fs.inum, src, o);
      while i < n
        invariant 0 <= i <= n && i <= w && Ready() && off == o + i && fs.inum == old(fs.inum) && |fs.itab| == |s0.itab|
        invariant o / BSIZE <= End(o, i) <= MAXFILE && (i < n ==> i == c * CHUNK)
        invariant Chunks(fs.sb, s0, fs.Now(), fs.inum, src, o, i)
      {
        var n1 := if n - i > CHUNK then CHUNK else n - i;
        ghost var s1 := fs.Now();
        ChunksSize(fs.sb, s0, s1, fs.inum, src, o, i);
        NextChunk(o, n, c, n1);
        out, r := WriteChunk(src[i..i + n1]);
        if out != Done {
          StuckSize(fs.sb, s1, fs.Now(), fs.inum, Need(s1, fs.inum, (o + i) / BSIZE, End(o + i, n1)));
          ChunkStuck(fs.sb, s0, s1, fs.Now(), fs.inum, src, o, i, n1, w);
          return;
        }
        if r < 0 {
          break;
        }
        EndBound(o, i + n1, w);
        ChunksMore(fs.sb, s0, s1, fs.Now(), fs.inum, src, o, i, n1);
        i, c := i + r, c + 1;
      }
      ChunksFit(fs.sb, s0, fs.Now(), fs.inum, src, o, i);
      out, r := Done, if i == n then n else -1;
    }
  }
}
