/**
 What a write does to a file (fs.c): its bytes, the blocks it takes, the inode, and the
 blocks that the log sees.
 */
module FileContents {

  import opened Basics
  import opened Blocks
  import opened FileState

  // ---------- contents as byte sequences ----------

  /** How many blocks the first x bytes of a file take. */
  function BlocksTo(x: nat): nat {
    (x + BSIZE - 1) / BSIZE
  }

  /** How many blocks a file of x bytes takes, the indirect block included. */
  function TakenBy(x: nat): nat {
    BlocksTo(x) + if x > NDIRECT * BSIZE then 1 else 0
  }

  /** The block after the last one that n bytes from `off` touch. */
  function End(off: nat, n: nat): nat {
    if n == 0 then off / BSIZE else BlocksTo(off + n)
  }

  function Max(a: nat, b: nat): nat {
    if a < b then b else a
  }

  function Min(a: nat, b: nat): nat {
    if a < b then a else b
  }

  /** The bytes of file i. */
  ghost function Contents(s: State, i: nat): seq<Byte>
    requires i < |s.itab| && s.itab[i].size <= MAXFILE * BSIZE
  {
    seq(s.itab[i].size, x requires 0 <= x < s.itab[i].size => ByteAt(s, i, x))
  }

  lemma ContentsSize(s: State, i: nat)
    requires i < |s.itab| && s.itab[i].size <= MAXFILE * BSIZE
    ensures |Contents(s, i)| == s.itab[i].size
  {
  }

  lemma FileSize(sb: Super, s: State, i: nat)
    requires Owners(sb, s) && i < |s.itab| && FileOk(sb, s, i)
    ensures s.itab[i].size <= MAXFILE * BSIZE && |Contents(s, i)| == s.itab[i].size
  {
    ContentsSize(s, i);
  }

  lemma ContentsSlice(s: State, i: nat, from: nat, to: nat, t: seq<Byte>)
    requires i < |s.itab| && from <= to <= s.itab[i].size <= MAXFILE * BSIZE && |t| == to - from
    requires forall y: nat :: y < |t| ==> t[y] == ByteAt(s, i, from + y)
    ensures t == Contents(s, i)[from..to]
  {
    hide ByteAt;
  }

  /** `src` written over `t` at `off`, growing it if need be. */
  function Splice(t: seq<Byte>, src: seq<Byte>, off: nat): seq<Byte>
    requires off <= |t|
  {
    t[..off] + src + (if off + |src| < |t| then t[off + |src|..] else [])
  }

  /** The bytes of file i are those in `s`, with `src` laid over them at `off`. */
  ghost predicate Laid(s: State, s': State, i: nat, src: seq<Byte>, off: nat)
    requires i < |s.itab| == |s'.itab|
  {
    forall x: nat :: x < MAXFILE * BSIZE ==>
      ByteAt(s', i, x) == if off <= x < off + |src| then src[x - off] else ByteAt(s, i, x)
  }

  lemma ContentsLaid(s: State, s': State, i: nat, src: seq<Byte>, off: nat)
    requires i < |s.itab| == |s'.itab| && off <= s.itab[i].size <= MAXFILE * BSIZE && off + |src| <= MAXFILE * BSIZE
    requires Laid(s, s', i, src, off) && s'.itab[i].size == Max(s.itab[i].size, off + |src|)
    ensures Contents(s', i) == Splice(Contents(s, i), src, off)
  {
    hide ByteAt;
    var t, t' := Contents(s, i), Contents(s', i);
    forall x: nat | x < |t'| ensures t'[x] == Splice(t, src, off)[x] {
      assert t'[x] == ByteAt(s', i, x);
      assert x < |t| ==> t[x] == ByteAt(s, i, x);
    }
  }

  lemma LaidTwice(s0: State, s: State, s': State, i: nat, src: seq<Byte>, off: nat, tot: nat, m: nat)
    requires i < |s0.itab| == |s.itab| == |s'.itab| && tot + m <= |src|
    requires Laid(s0, s, i, src[..tot], off) && Laid(s, s', i, src[tot..tot + m], off + tot)
    ensures Laid(s0, s', i, src[..tot + m], off)
  {
    hide ByteAt;
  }

  // ---------- one block ----------

  /** memmove of `src` into a block, at offset `o`. */
  function Overlay(b: Block, src: seq<Byte>, o: nat): (b': Block)
    requires o + |src| <= BSIZE
  {
    b[..o] + src + b[o + |src|..]
  }

  lemma BlockByte(s: State, i: nat, k: nat, y: nat)
    requires i < |s.itab| && k < MAXFILE && y < BSIZE && 0 < Addr(s, i, k) < |s.disk|
    ensures ByteAt(s, i, k * BSIZE + y) == s.disk[Addr(s, i, k)][y]
  {
    hide Addr;
    assert (k * BSIZE + y) / BSIZE == k && (k * BSIZE + y) % BSIZE == y;
  }

  lemma LaidInBlock(s: State, s1: State, s': State, i: nat, src: seq<Byte>, off: nat, data: Block)
    requires i < |s.itab| == |s1.itab| == |s'.itab| && off % BSIZE + |src| <= BSIZE && off < MAXFILE * BSIZE
    requires SameBytes(s, s1, i)
    requires forall y: nat :: y < BSIZE && off / BSIZE * BSIZE + y < MAXFILE * BSIZE ==>
               data[y] == ByteAt(s1, i, off / BSIZE * BSIZE + y)
    requires forall x: nat :: x < MAXFILE * BSIZE ==>
               ByteAt(s', i, x) == if x / BSIZE == off / BSIZE then Overlay(data, src, off % BSIZE)[x % BSIZE]
                                   else ByteAt(s1, i, x)
    ensures Laid(s, s', i, src, off)
  {
    hide ByteAt;
    forall x: nat | x < MAXFILE * BSIZE
      ensures ByteAt(s', i, x) == if off <= x < off + |src| then src[x - off] else ByteAt(s, i, x)
    {
      if x / BSIZE == off / BSIZE {
        assert x == off / BSIZE * BSIZE + x % BSIZE;
      }
    }
  }

  // ---------- any number of blocks ----------

  /**
   From `s` to `s'` `src` has been laid over file i at `off`.  The file has gained exactly the
   blocks it took to fill its slots up to `to`, and the size is as it was.
   */
  ghost predicate Written(sb: Super, s: State, s': State, i: nat, src: seq<Byte>, off: nat, to: nat)
    requires Layout(sb) && |s.disk| == sb.size && i < |s.itab| == sb.ninodes && to <= MAXFILE
  {
    && Owners(sb, s') && OthersKept(sb, s, s', i) && Laid(s, s', i, src, off)
    && SameHead(s.itab[i], s'.itab[i]) && s'.disk[IBlock(sb, i)] == s.disk[IBlock(sb, i)]
    && Placed(s, s', i, off / BSIZE, to)
    && OwnersKept(s, s') && |s'.owner| == |s.owner| + Need(s, i, off / BSIZE, to)
  }

  lemma WrittenFacts(sb: Super, s: State, s': State, i: nat, src: seq<Byte>, off: nat, to: nat)
    requires Layout(sb) && |s.disk| == sb.size && i < |s.itab| == sb.ninodes && to <= MAXFILE
    requires Written(sb, s, s', i, src, off, to)
    ensures Owners(sb, s') && |s'.itab| == |s.itab| && |s'.disk| == |s.disk| && SameHead(s.itab[i], s'.itab[i])
    ensures OwnersKept(s, s') && |s'.owner| == |s.owner| + Need(s, i, off / BSIZE, to)
  {
    hide Addr, ByteAt, Synced, Owned, Slots, Need;
  }

  lemma WrittenNone(sb: Super, s: State, i: nat, src: seq<Byte>, off: nat)
    requires Owners(sb, s) && i < |s.itab| && off <= MAXFILE * BSIZE
    ensures Written(sb, s, s, i, src[..0], off, End(off, 0))
  {
    OthersSelf(sb, s, i);
    hide Addr, ByteAt, Synced, Owned, Slots, OthersKept;
  }

  /** One block: a slot filled if it was empty, and the data stored in it. */
  lemma WrittenPart(sb: Super, s: State, s1: State, s': State, i: nat, src: seq<Byte>, off: nat)
    requires Owners(sb, s) && i < |s.itab| && 0 < |src| && off % BSIZE + |src| <= BSIZE && off < MAXFILE * BSIZE
    requires Got(sb, s, s1, i, off / BSIZE, off / BSIZE + 1) && |s1.itab| == |s.itab|
    requires 0 < Addr(s1, i, off / BSIZE) < |s1.disk|
    requires var a := Addr(s1, i, off / BSIZE);
             s' == State(s1.disk[a := Overlay(s1.disk[a], src, off % BSIZE)], s1.itab, s1.owner)
    ensures Written(sb, s, s', i, src, off, off / BSIZE + 1) && MapSame(sb, s1.disk, s'.disk)
  {
    hide Addr, ByteAt, Synced, Owned, Slots, Overlay, OthersKept, Laid, Need;
    var k := off / BSIZE;
    SlotBlock(sb, s1, i, k);
    var data := s1.disk[Addr(s1, i, k)];
    DataWritten(sb, s1, s', i, k, Overlay(data, src, off % BSIZE));
    OthersTwice(sb, s, s1, s', i);
    forall y: nat | y < BSIZE && k * BSIZE + y < MAXFILE * BSIZE ensures data[y] == ByteAt(s1, i, k * BSIZE + y) {
      BlockByte(s1, i, k, y);
    }
    LaidInBlock(s, s1, s', i, src, off, data);
  }

  lemma WrittenTwice(sb: Super, s0: State, s: State, s': State, i: nat, src: seq<Byte>, off: nat, tot: nat, m: nat,
                     mid: nat, to: nat)
    requires Layout(sb) && |s0.disk| == sb.size && i < |s0.itab| == sb.ninodes
    requires tot + m <= |src| && (off + tot) / BSIZE <= mid <= to <= MAXFILE
    requires Written(sb, s0, s, i, src[..tot], off, mid) && |s.itab| == |s0.itab| && |s.disk| == |s0.disk|
    requires Written(sb, s, s', i, src[tot..tot + m], off + tot, to) && |s'.itab| == |s.itab|
    ensures Written(sb, s0, s', i, src[..tot + m], off, to)
    ensures Need(s0, i, off / BSIZE, to) == Need(s0, i, off / BSIZE, mid) + Need(s, i, (off + tot) / BSIZE, to)
  {
    hide Addr, ByteAt, Synced, Owned, Slots, Need, Placed;
    OthersTwice(sb, s0, s, s', i);
    LaidTwice(s0, s, s', i, src, off, tot, m);
    PlacedTwice(s0, s, s', i, off / BSIZE, mid, (off + tot) / BSIZE, to);
  }

  /** A part of a block follows the blocks before it. */
  lemma EndNext(off: nat, tot: nat, m: nat)
    requires 0 < m && (off + tot) % BSIZE + m <= BSIZE
    ensures End(off, tot + m) == End(off + tot, m) == (off + tot) / BSIZE + 1
    ensures (off + tot) / BSIZE <= End(off, tot) <= End(off, tot + m)
  {
  }

  lemma EndBound(off: nat, n: nat, n': nat)
    requires n <= n' && off + n' <= MAXFILE * BSIZE
    ensures off / BSIZE <= End(off, n) <= End(off, n') <= MAXFILE
  {
  }

  /** What one more block takes, counted from the start. */
  lemma NeedOneMore(s0: State, s: State, i: nat, from: nat, mid: nat, k: nat)
    requires i < |s0.itab| == |s.itab| && from <= k <= mid <= k + 1 <= MAXFILE && Placed(s0, s, i, from, mid)
    ensures Need(s0, i, from, k + 1) == Need(s0, i, from, mid) + Need(s, i, k, k + 1)
  {
    hide Addr, Missing;
    MissingTwice(s0, s, i, from, mid, k, k + 1);
  }

  // ---------- files without holes ----------

  /** Writing at or before the end leaves a file without holes, and without blocks past its end. */
  lemma TightGrows(s: State, s': State, i: nat, len: nat, off: nat, n: nat)
    requires i < |s.itab| == |s'.itab| && Tight(s, i, len) && off <= len && off + n <= MAXFILE * BSIZE
    requires Placed(s, s', i, off / BSIZE, End(off, n))
    ensures Tight(s', i, Max(len, off + n))
  {
    hide Addr;
    forall k: nat | k < MAXFILE ensures Addr(s', i, k) != 0 <==> k * BSIZE < Max(len, off + n) {
      if off / BSIZE <= k < End(off, n) {
        assert k * BSIZE < off + n;
      } else {
        assert Addr(s', i, k) == Addr(s, i, k);
        assert k * BSIZE < Max(len, off + n) ==> k * BSIZE < len;
      }
    }
  }

  lemma {:induction false} MissingAfter(s: State, i: nat, from: nat, to: nat, c: nat)
    requires i < |s.itab| && from <= c && to <= MAXFILE
    requires forall k: nat :: k < MAXFILE ==> (Addr(s, i, k) != 0 <==> k < c)
    ensures Missing(s, i, from, to) == if to <= c then 0 else to - c
  {
    hide Addr;
    if from < to {
      MissingAfter(s, i, from, to - 1, c);
    }
  }

  /** What a write takes when there are no holes is the difference in size, counted in blocks. */
  lemma NeedTight(s: State, i: nat, len: nat, off: nat, n: nat)
    requires i < |s.itab| && Tight(s, i, len) && off <= len && off + n <= MAXFILE * BSIZE
    ensures off / BSIZE <= End(off, n) <= MAXFILE
    ensures Need(s, i, off / BSIZE, End(off, n)) == TakenBy(Max(len, off + n)) - TakenBy(len)
  {
    hide Addr, Missing;
    EndBound(off, n, n);
    var c := BlocksTo(len);
    forall k: nat | k < MAXFILE ensures Addr(s, i, k) != 0 <==> k < c {
      assert k * BSIZE < len <==> k < c;
    }
    MissingAfter(s, i, off / BSIZE, End(off, n), c);
  }

  lemma TakenByGrows(x: nat, y: nat)
    requires x <= y
    ensures TakenBy(x) <= TakenBy(y)
  {
  }

  // ---------- the inode on disk ----------

  lemma OneHeld(b: Block, k: nat, ino: Inode, ino': Inode)
    requires k < IPB && Holds(b, k, ino) && Holds(b, k, ino')
    ensures ino == ino'
  {
    hide Word;
    assert Words(ino)[0] == Words(ino')[0] && Words(ino)[1] == Words(ino')[1] && Words(ino)[2] == Words(ino')[2];
    forall j: nat | j < 13 ensures ino.addrs[j] == ino'.addrs[j] {
      assert Words(ino)[3 + j] == Words(ino')[3 + j];
    }
    assert ino.addrs == ino'.addrs;
  }

  /** Without iupdate, the inode on disk is right afterwards exactly if none of its own addresses was filled. */
  lemma SyncedStill(sb: Super, s: State, s': State, i: nat, from: nat, to: nat)
    requires Owners(sb, s) && Owners(sb, s') && i < |s.itab| && Synced(sb, s, i)
    requires Placed(s, s', i, from, to) && SameHead(s.itab[i], s'.itab[i])
    requires s'.disk[IBlock(sb, i)] == s.disk[IBlock(sb, i)]
    ensures Synced(sb, s', i) <==> !Bare(s, i, from, to)
  {
    hide Addr, Owned, Slots, Holds, Placed, Bare;
    InodeChanges(s, s', i, from, to);
    if Synced(sb, s', i) {
      OneHeld(s.disk[IBlock(sb, i)], i % IPB, s.itab[i], s'.itab[i]);
    }
  }

  /** In a file without holes no address below its end is empty. */
  lemma TightNotBare(s: State, i: nat, len: nat, off: nat, n: nat)
    requires i < |s.itab| && Tight(s, i, len) && off + n <= len
    ensures !Bare(s, i, off / BSIZE, End(off, n))
  {
    forall k: nat | off / BSIZE <= k < End(off, n) && k < NDIRECT ensures s.itab[i].addrs[k] != 0 {
      assert k * BSIZE < off + n;
      assert Addr(s, i, k) != 0;
    }
    assert Addr(s, i, INDIRECT) == s.itab[i].addrs[NDIRECT];
    if off / BSIZE < End(off, n) && End(off, n) > NDIRECT {
      assert off + n > NDIRECT * BSIZE;
    }
  }

  // ---------- a whole write ----------

  /** The write ends past the end of the file. */
  predicate Grows(s: State, i: nat, src: seq<Byte>, off: nat)
    requires i < |s.itab|
  {
    |src| > 0 && off + |src| > s.itab[i].size
  }

  /**
   From `s` to `s'` writei has written `src` at `off`.  The inode on disk is the one in memory
   if the file has grown, and otherwise exactly if no address of the inode was empty.
   */
  ghost predicate Spliced(sb: Super, s: State, s': State, i: nat, src: seq<Byte>, off: nat)
    requires Owners(sb, s) && i < |s.itab| && off <= s.itab[i].size <= MAXFILE * BSIZE && off + |src| <= MAXFILE * BSIZE
    requires End(off, |src|) <= MAXFILE
  {
    && Owners(sb, s') && OthersKept(sb, s, s', i)
    && s'.itab[i].kind == s.itab[i].kind && s'.itab[i].links == s.itab[i].links
    && s'.itab[i].size == Max(s.itab[i].size, off + |src|)
    && Contents(s', i) == Splice(Contents(s, i), src, off)
    && Placed(s, s', i, off / BSIZE, End(off, |src|))
    && OwnersKept(s, s') && |s'.owner| == |s.owner| + Need(s, i, off / BSIZE, End(off, |src|))
    && (FileOk(sb, s, i) ==> FileOk(sb, s', i))
    && (Grows(s, i, src, off) ==> Synced(sb, s', i))
    && (!Grows(s, i, src, off) && Synced(sb, s, i) ==>
          (Synced(sb, s', i) <==> !Bare(s, i, off / BSIZE, End(off, |src|))))
  }

  /** A write that does not grow the file leaves the inode's place on disk alone. */
  lemma SplicedInPlace(sb: Super, s: State, s': State, i: nat, src: seq<Byte>, off: nat)
    requires Owners(sb, s) && i < |s.itab| && off <= s.itab[i].size <= MAXFILE * BSIZE && off + |src| <= MAXFILE * BSIZE
    requires End(off, |src|) <= MAXFILE && Written(sb, s, s', i, src, off, End(off, |src|)) && !Grows(s, i, src, off)
    ensures Spliced(sb, s, s', i, src, off)
  {
    hide Addr, ByteAt, Synced, Owned, Slots, OthersKept, Laid, Contents, Splice, Placed, Need, Bare, Tight;
    WrittenFacts(sb, s, s', i, src, off, End(off, |src|));
    ContentsLaid(s, s', i, src, off);
    if Synced(sb, s, i) {
      SyncedStill(sb, s, s', i, off / BSIZE, End(off, |src|));
      if Tight(s, i, s.itab[i].size) {
        TightGrows(s, s', i, s.itab[i].size, off, |src|);
        TightNotBare(s, i, s.itab[i].size, off, |src|);
      }
    }
  }

  /** A write past the end leaves the grown inode on disk. */
  lemma SplicedGrown(sb: Super, s: State, s1: State, s': State, i: nat, src: seq<Byte>, off: nat)
    requires Owners(sb, s) && i < |s.itab| && off <= s.itab[i].size <= MAXFILE * BSIZE && off + |src| <= MAXFILE * BSIZE
    requires End(off, |src|) <= MAXFILE && Written(sb, s, s1, i, src, off, End(off, |src|)) && Grows(s, i, src, off)
    requires |s1.itab| == |s.itab| && |s1.disk| == |s.disk|
    requires s'.itab == s1.itab[i := s1.itab[i].(size := off + |src|)] && s'.owner == s1.owner
    requires s'.disk == s1.disk[IBlock(sb, i) := PutInode(s1.disk[IBlock(sb, i)], i % IPB, s'.itab[i])]
    ensures Spliced(sb, s, s', i, src, off)
  {
    hide Addr, ByteAt, Synced, Owned, Slots, OthersKept, Contents, Splice, Need, Bare, Tight;
    WrittenFacts(sb, s, s1, i, src, off, End(off, |src|));
    InodeWritten(sb, s1, s', i);
    OthersTwice(sb, s, s1, s', i);
    assert Laid(s, s', i, src, off);
    assert Placed(s, s', i, off / BSIZE, End(off, |src|));
    hide Laid, Placed, SameBytes;
    ContentsLaid(s, s', i, src, off);
    if Tight(s, i, s.itab[i].size) {
      TightGrows(s, s', i, s.itab[i].size, off, |src|);
    }
  }

  // ---------- what the log sees ----------

  ghost predicate EntryMissing(s: State, i: nat, from: nat, to: nat)
    requires i < |s.itab|
  {
    exists k: nat :: from <= k < to && NDIRECT <= k < MAXFILE && Addr(s, i, k) == 0
  }

  /** Block c of the free map has changed: a block it speaks of has been taken. */
  ghost predicate NewMap(sb: Super, s: State, s': State, c: nat) {
    exists b :: b in s'.owner && b !in s.owner && c == BBlock(sb, b)
  }

  /** The blocks that a write to blocks `from..to` of file i logs, apart from the inode's. */
  ghost predicate Wrote(sb: Super, s: State, s': State, i: nat, from: nat, to: nat, c: nat)
    requires i < |s.itab|
  {
    || (c in s'.owner && s'.owner[c].inum == i && from <= s'.owner[c].k < to)
    || (c in s'.owner && s'.owner[c] == Slot(i, INDIRECT) && EntryMissing(s, i, from, to))
    || NewMap(sb, s, s', c)
  }

  /** The list has gained exactly those blocks. */
  ghost predicate LogGains(sb: Super, s: State, s': State, i: nat, from: nat, to: nat, lh: seq<Uint>, lh': seq<Uint>)
    requires i < |s.itab|
  {
    forall c: nat :: c in lh' <==> c in lh || Wrote(sb, s, s', i, from, to, c)
  }

  lemma LogGainsNone(sb: Super, s: State, i: nat, from: nat, lh: seq<Uint>)
    requires i < |s.itab|
    ensures LogGains(sb, s, s, i, from, from, lh, lh)
  {
    hide Addr;
  }

  lemma EntryMissingTwice(s0: State, s1: State, i: nat, from: nat, mid: nat, from': nat, to: nat)
    requires i < |s0.itab| == |s1.itab| && from <= from' <= mid <= to <= MAXFILE && Placed(s0, s1, i, from, mid)
    ensures EntryMissing(s0, i, from, to) <==> EntryMissing(s0, i, from, mid) || EntryMissing(s1, i, from', to)
  {
    hide Addr;
    if EntryMissing(s0, i, from, to) {
      var k: nat :| from <= k < to && NDIRECT <= k < MAXFILE && Addr(s0, i, k) == 0;
      assert k >= mid ==> Addr(s1, i, k) == 0;
    }
    if EntryMissing(s1, i, from', to) {
      var k: nat :| from' <= k < to && NDIRECT <= k < MAXFILE && Addr(s1, i, k) == 0;
      assert Addr(s0, i, k) == 0;
    }
  }

  /** The block in a filled slot is the slot's in both states. */
  lemma SlotStays(sb: Super, s1: State, s2: State, i: nat, k: nat, c: nat)
    requires Owners(sb, s1) && Owners(sb, s2) && i < |s1.itab| == |s2.itab| && k <= INDIRECT && OwnersKept(s1, s2)
    requires Addr(s1, i, k) != 0 && Addr(s2, i, k) == Addr(s1, i, k)
    ensures (c in s1.owner && s1.owner[c] == Slot(i, k)) <==> (c in s2.owner && s2.owner[c] == Slot(i, k))
  {
    hide Addr;
    SlotBlock(sb, s1, i, k);
    SlotBlock(sb, s2, i, k);
  }

  lemma WroteTwice(sb: Super, s0: State, s1: State, s2: State, i: nat, from: nat, mid: nat, from': nat, to: nat, c: nat)
    requires Owners(sb, s0) && Owners(sb, s1) && Owners(sb, s2) && i < |s0.itab|
    requires from <= from' <= mid <= to <= MAXFILE
    requires Placed(s0, s1, i, from, mid) && Placed(s1, s2, i, from', to) && OwnersKept(s0, s1) && OwnersKept(s1, s2)
    ensures Wrote(sb, s0, s2, i, from, to, c) <==>
              Wrote(sb, s0, s1, i, from, mid, c) || Wrote(sb, s1, s2, i, from', to, c)
  {
    hide Owned, Slots, Addr, EntryMissing, NewMap, Placed;
    EntryMissingTwice(s0, s1, i, from, mid, from', to);
    NewMapTwice(sb, s0, s1, s2, c);
    DataTwice(sb, s0, s1, s2, i, from, mid, from', to, c);
    if EntryMissing(s0, i, from, mid) {
      EntryIndirect(s0, s1, i, from, mid);
      IndirectStays(s1, s2, i, from', to);
      SlotStays(sb, s1, s2, i, INDIRECT, c);
    }
  }

  lemma EntryIndirect(s0: State, s1: State, i: nat, from: nat, mid: nat)
    requires i < |s0.itab| == |s1.itab| && Placed(s0, s1, i, from, mid) && EntryMissing(s0, i, from, mid)
    ensures Addr(s1, i, INDIRECT) != 0
  {
    hide Addr;
  }

  lemma IndirectStays(s1: State, s2: State, i: nat, from: nat, to: nat)
    requires i < |s1.itab| == |s2.itab| && Placed(s1, s2, i, from, to) && Addr(s1, i, INDIRECT) != 0
    ensures Addr(s2, i, INDIRECT) == Addr(s1, i, INDIRECT)
  {
    hide Addr;
  }

  lemma NewMapTwice(sb: Super, s0: State, s1: State, s2: State, c: nat)
    requires OwnersKept(s0, s1) && OwnersKept(s1, s2)
    ensures NewMap(sb, s0, s2, c) <==> NewMap(sb, s0, s1, c) || NewMap(sb, s1, s2, c)
  {
    hide BBlock;
    if NewMap(sb, s0, s2, c) {
      var b :| b in s2.owner && b !in s0.owner && c == BBlock(sb, b);
      assert b in s1.owner || b !in s1.owner;
    }
    if NewMap(sb, s0, s1, c) {
      var b :| b in s1.owner && b !in s0.owner && c == BBlock(sb, b);
      assert b in s2.owner;
    }
    if NewMap(sb, s1, s2, c) {
      var b :| b in s2.owner && b !in s1.owner && c == BBlock(sb, b);
      assert b !in s0.owner;
    }
  }

  lemma DataTwice(sb: Super, s0: State, s1: State, s2: State, i: nat, from: nat, mid: nat, from': nat, to: nat, c: nat)
    requires Owners(sb, s1) && Owners(sb, s2) && i < |s0.itab| == |s1.itab| == |s2.itab|
    requires from <= from' <= mid <= to <= MAXFILE && OwnersKept(s1, s2)
    requires Placed(s0, s1, i, from, mid) && Placed(s1, s2, i, from', to)
    ensures c in s2.owner && s2.owner[c].inum == i && from <= s2.owner[c].k < to <==>
              || (c in s1.owner && s1.owner[c].inum == i && from <= s1.owner[c].k < mid)
              || (c in s2.owner && s2.owner[c].inum == i && from' <= s2.owner[c].k < to)
  {
    hide Addr;
    if c in s2.owner && s2.owner[c].inum == i && from <= s2.owner[c].k < mid {
      SlotStays(sb, s1, s2, i, s2.owner[c].k, c);
    }
  }

  lemma LogGainsTwice(sb: Super, s0: State, s1: State, s2: State, i: nat, from: nat, mid: nat, from': nat, to: nat,
                      lh0: seq<Uint>, lh1: seq<Uint>, lh2: seq<Uint>)
    requires Owners(sb, s0) && Owners(sb, s1) && Owners(sb, s2) && i < |s0.itab|
    requires from <= from' <= mid <= to <= MAXFILE
    requires Placed(s0, s1, i, from, mid) && Placed(s1, s2, i, from', to) && OwnersKept(s0, s1) && OwnersKept(s1, s2)
    requires LogGains(sb, s0, s1, i, from, mid, lh0, lh1) && LogGains(sb, s1, s2, i, from', to, lh1, lh2)
    ensures LogGains(sb, s0, s2, i, from, to, lh0, lh2)
  {
    hide Owners, Placed, OwnersKept, Wrote;
    forall c: nat ensures c in lh2 <==> c in lh0 || Wrote(sb, s0, s2, i, from, to, c) {
      WroteTwice(sb, s0, s1, s2, i, from, mid, from', to, c);
      assert c in lh1 <==> c in lh0 || Wrote(sb, s0, s1, i, from, mid, c);
    }
  }
}
