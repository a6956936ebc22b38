/**
 The buffer cache (bio.c) over the synchronous in-memory disk (memide.c).

 A buffer is named by its index in `bcache.buf`; HEAD names the list head.  The
 buffers sit on one circular doubly linked list through `prev` and `next`, most
 recently used first.  `view` is the plain map from block numbers to contents that
 the cache and the disk implement together.  Every method is one critical section,
 so whatever each of them keeps holds in every interleaving of them.
 */
module BufferCache {
  import opened Basics
  import opened Blocks

  const NBUF: nat := 30
  const HEAD: nat := NBUF

  datatype Write = Write(blockno: nat, data: Block)

  datatype Buf = Buf(
    valid: bool,    // B_VALID
    dirty: bool,    // B_DIRTY
    dev: nat,
    blockno: nat,
    locked: bool,   // the buffer's sleep lock
    refcnt: nat,
    data: Block)

  const FRESH_BUF: Buf := Buf(false, false, 0, 0, false, 0, ZERO_BLOCK)

  /** `next` and `prev` link HEAD and the buffers of `s`, in that order, into a circle. */
  ghost predicate Linked(next: seq<nat>, prev: seq<nat>, s: seq<nat>)
    requires |next| == |prev| == NBUF + 1
    requires forall i :: 0 <= i < |s| ==> s[i] < NBUF
  {
    && next[HEAD] == (if s == [] then HEAD else s[0])
    && prev[HEAD] == (if s == [] then HEAD else s[|s| - 1])
    && (forall i {:trigger next[s[i]]} :: 0 <= i < |s| ==> next[s[i]] == if i + 1 < |s| then s[i + 1] else HEAD)
    && (forall i {:trigger prev[s[i]]} :: 0 <= i < |s| ==> prev[s[i]] == if i > 0 then s[i - 1] else HEAD)
  }

  ghost predicate Distinct(s: seq<nat>) {
    forall i, j :: 0 <= i < j < |s| ==> s[i] != s[j]
  }

  /** Every buffer is in `s` exactly once. */
  ghost predicate Permutation(s: seq<nat>) {
    && (forall i :: 0 <= i < |s| ==> s[i] < NBUF)
    && (forall b: nat :: b < NBUF ==> b in s)
    && Distinct(s)
  }

  /** A buffer that bget may recycle. */
  predicate Recyclable(b: Buf) {
    b.refcnt == 0 && !b.dirty
  }

  ghost predicate BufOk(b: Buf, view: seq<Block>, disk: seq<Block>) {
    && (b.dirty ==> b.valid)
    && (b.locked ==> b.refcnt > 0)
    && (b.valid ==> b.dev == 1 && b.blockno < |disk| && b.blockno < |view|)
    && (b.valid && !b.locked ==> b.data == view[b.blockno])
    && (b.valid && !b.locked && !b.dirty ==> b.data == disk[b.blockno])
  }

  /** `where` finds the one buffer that holds each cached block of the disk. */
  ghost predicate Indexed(buf: seq<Buf>, where: map<nat, nat>) {
    && (forall n :: n in where ==> where[n] < |buf| && buf[where[n]].dev == 1 && buf[where[n]].blockno == n)
    && (forall b :: 0 <= b < |buf| && buf[b].dev != 0 ==>
          buf[b].dev == 1 && buf[b].blockno in where && where[buf[b].blockno] == b)
  }

  /**
   The cache over the disk shows `view`: a block that no valid buffer holds is on the
   disk as the view shows it, and an unlocked valid buffer agrees with the view.
   */
  ghost predicate Consistent(buf: seq<Buf>, where: map<nat, nat>, view: seq<Block>, disk: seq<Block>) {
    && |buf| == NBUF && |view| == |disk| && Indexed(buf, where)
    && (forall b :: 0 <= b < |buf| ==> BufOk(buf[b], view, disk))
    && (forall n :: 0 <= n < |view| ==>
          view[n] == disk[n] || (n in where && buf[where[n]].valid))
  }

  /** At most one buffer holds any block of a real device. */
  lemma Unique(buf: seq<Buf>, where: map<nat, nat>, b: nat, c: nat)
    requires Indexed(buf, where) && b < |buf| && c < |buf| && b != c
    ensures buf[b].dev == buf[c].dev && buf[b].dev != 0 ==> buf[b].blockno != buf[c].blockno
  {
  }

  /** Changing only the reference count, lock and pin of a buffer, within its own rules, keeps the view. */
  lemma KeepsView(buf: seq<Buf>, where: map<nat, nat>, view: seq<Block>, disk: seq<Block>, b: nat, b': Buf)
    requires Consistent(buf, where, view, disk) && b < NBUF && BufOk(b', view, disk)
    requires b'.dev == buf[b].dev && b'.blockno == buf[b].blockno && (buf[b].valid ==> b'.valid)
    ensures Consistent(buf[b := b'], where, view, disk)
  {
    var buf' := buf[b := b'];
    assert forall c :: 0 <= c < |buf'| ==> buf'[c].dev == buf[c].dev && buf'[c].blockno == buf[c].blockno;
  }

  /** Giving an unused clean buffer to a block that is not cached loses nothing. */
  lemma Recycling(buf: seq<Buf>, where: map<nat, nat>, view: seq<Block>, disk: seq<Block>, b: nat, b': Buf)
    requires Consistent(buf, where, view, disk) && b < NBUF && Recyclable(buf[b])
    requires b'.dev == 1 && b'.blockno !in where && !b'.valid && BufOk(b', view, disk)
    ensures Consistent(buf[b := b'],
                       (if buf[b].dev == 1 then where - {buf[b].blockno} else where)[b'.blockno := b],
                       view, disk)
  {
    var where0 := if buf[b].dev == 1 then where - {buf[b].blockno} else where;
    assert BufOk(buf[b], view, disk);
    assert forall n :: n in where0 ==> where0[n] != b;
    assert Indexed(buf[b := b'], where0[b'.blockno := b]);
  }

  /** The block numbers that dirty buffers hold. */
  ghost function Dirty(buf: seq<Buf>): set<nat> {
    set b | 0 <= b < |buf| && buf[b].dirty :: buf[b].blockno
  }

  /** A block that no dirty or held buffer has is on the disk as the view shows it. */
  lemma CleanBlock(buf: seq<Buf>, where: map<nat, nat>, view: seq<Block>, disk: seq<Block>, n: nat)
    requires Consistent(buf, where, view, disk) && n < |view| && n !in Dirty(buf)
    requires n in where ==> !buf[where[n]].locked
    ensures view[n] == disk[n]
  {
    if n in where && buf[where[n]].valid {
      assert BufOk(buf[where[n]], view, disk);
    }
  }

  lemma DirtyKept(buf: seq<Buf>, b: nat, b': Buf)
    requires b < |buf| && b'.dirty == buf[b].dirty && (b'.dirty ==> b'.blockno == buf[b].blockno)
    ensures Dirty(buf[b := b']) == Dirty(buf)
  {
    var buf' := buf[b := b'];
    forall n | n in Dirty(buf) ensures n in Dirty(buf') {
      var c :| 0 <= c < |buf| && buf[c].dirty && buf[c].blockno == n;
      assert buf'[c].dirty && buf'[c].blockno == n;
    }
  }

  lemma DirtyCleared(buf: seq<Buf>, where: map<nat, nat>, view: seq<Block>, disk: seq<Block>, b: nat)
    requires Consistent(buf, where, view, disk) && b < NBUF && buf[b].valid
    ensures Dirty(buf[b := buf[b].(dirty := false)]) == Dirty(buf) - {buf[b].blockno}
  {
    var buf' := buf[b := buf[b].(dirty := false)];
    assert forall c :: 0 <= c < NBUF ==> BufOk(buf[c], view, disk);
    forall n | n in Dirty(buf) - {buf[b].blockno} ensures n in Dirty(buf') {
      var c :| 0 <= c < |buf| && buf[c].dirty && buf[c].blockno == n;
      assert buf'[c].dirty && buf'[c].blockno == n;
    }
  }

  lemma {:induction false} ImageSize(s: set<nat>, m: map<nat, nat>)
    requires s <= m.Keys
    ensures |set n | n in s :: m[n]| <= |s|
  {
    if s != {} {
      var x :| x in s;
      ImageSize(s - {x}, m);
      assert (set n | n in s :: m[n]) == (set n | n in s - {x} :: m[n]) + {m[x]};
    }
  }

  /** With few enough dirty and held buffers, bget always finds one to recycle. */
  lemma HasRecyclable(buf: seq<Buf>, where: map<nat, nat>, held: set<nat>)
    requires |buf| == NBUF && Indexed(buf, where)
    requires forall b :: 0 <= b < NBUF && buf[b].dirty ==> buf[b].dev != 0
    requires forall b: nat :: b < NBUF && buf[b].refcnt > 0 ==> b in held
    requires |Dirty(buf)| + |held| < NBUF
    ensures exists c :: 0 <= c < NBUF && Recyclable(buf[c])
  {
    if forall c :: 0 <= c < NBUF ==> !Recyclable(buf[c]) {
      var all := Range(0, NBUF);
      ImageSize(Dirty(buf), where);
      var holders := set n | n in Dirty(buf) :: where[n];
      forall b | b in all ensures b in held + holders {
        if b !in held {
          assert buf[b].blockno in Dirty(buf) && where[buf[b].blockno] == b;
        }
      }
      assert all <= held + holders;
      SubsetSize(all, held + holders);
    }
  }

  /**
   With clean buffers `held` and no other in use, nothing can be recycled exactly if the dirty blocks
   and the held buffers fill the cache.
   */
  lemma Shortage(buf: seq<Buf>, where: map<nat, nat>, view: seq<Block>, disk: seq<Block>, held: set<nat>)
    requires Consistent(buf, where, view, disk)
    requires forall b: nat :: b < NBUF ==> (buf[b].refcnt > 0 <==> b in held)
    requires forall b :: b in held ==> b < NBUF && !buf[b].dirty
    ensures |Dirty(buf)| + |held| <= NBUF
    ensures (forall c :: 0 <= c < NBUF ==> !Recyclable(buf[c])) <==> |Dirty(buf)| + |held| == NBUF
  {
    hide Dirty, Indexed;
    Occupied(buf, held);
    if |Dirty(buf)| + |held| < NBUF {
      DirtyHeld(buf, where, view, disk);
      HasRecyclable(buf, where, held);
    }
  }

  /** Dirty blocks and held buffers are no more than there are buffers, and fewer if one can be recycled. */
  lemma Occupied(buf: seq<Buf>, held: set<nat>)
    requires |buf| == NBUF && forall b: nat :: b < NBUF ==> (buf[b].refcnt > 0 <==> b in held)
    requires forall b :: b in held ==> b < NBUF && !buf[b].dirty
    ensures |Dirty(buf)| + |held| <= NBUF
    ensures forall c :: 0 <= c < NBUF && Recyclable(buf[c]) ==> |Dirty(buf)| + |held| < NBUF
  {
    hide Dirty;
    var pinned := set b: nat | b < NBUF && buf[b].dirty;
    DirtyImage(buf, pinned);
    TwoParts(pinned, held, NBUF);
    forall c | 0 <= c < NBUF && Recyclable(buf[c]) ensures |Dirty(buf)| + |held| < NBUF {
      assert c !in pinned && c !in held;
    }
  }

  lemma TwoParts(a: set<nat>, b: set<nat>, n: nat)
    requires (forall x :: x in a ==> x < n) && (forall x :: x in b ==> x < n) && (forall x :: x in a ==> x !in b)
    ensures |a| + |b| <= n
    ensures forall x: nat :: x < n && x !in a && x !in b ==> |a| + |b| < n
  {
    assert |a + b| == |a| + |b| by { assert a !! b; }
    SubsetSize(a + b, Range(0, n));
    forall x: nat | x < n && x !in a && x !in b ensures |a| + |b| < n {
      SubsetSize(a + b + {x}, Range(0, n));
    }
  }

  lemma DirtyHeld(buf: seq<Buf>, where: map<nat, nat>, view: seq<Block>, disk: seq<Block>)
    requires Consistent(buf, where, view, disk)
    ensures forall b :: 0 <= b < NBUF && buf[b].dirty ==> buf[b].dev != 0 && buf[b].blockno in where
  {
    forall b | 0 <= b < NBUF && buf[b].dirty ensures buf[b].dev != 0 && buf[b].blockno in where {
      assert BufOk(buf[b], view, disk);
    }
  }

  lemma {:induction false} DirtyImage(buf: seq<Buf>, pinned: set<nat>)
    requires forall b :: b in pinned ==> b < |buf|
    ensures |set b | b in pinned :: buf[b].blockno| <= |pinned|
    ensures (forall b: nat :: b in pinned <==> b < |buf| && buf[b].dirty) ==> |Dirty(buf)| <= |pinned|
  {
    if pinned != {} {
      var x :| x in pinned;
      DirtyImage(buf, pinned - {x});
      var rest := set b | b in pinned - {x} :: buf[b].blockno;
      assert (set b | b in pinned :: buf[b].blockno) == rest + {buf[x].blockno};
    }
    if forall b: nat :: b in pinned <==> b < |buf| && buf[b].dirty {
      assert Dirty(buf) == set b | b in pinned :: buf[b].blockno;
    }
  }

  /** When nothing can be recycled, only dirty blocks are cached, apart from those of the held buffers. */
  lemma CachedDirty(buf: seq<Buf>, where: map<nat, nat>, held: set<nat>, n: nat)
    requires |buf| == NBUF && Indexed(buf, where) && n in where
    requires forall b: nat :: b < NBUF ==> (buf[b].refcnt > 0 <==> b in held)
    requires forall b :: b in held ==> b < NBUF && buf[b].blockno != n
    requires forall c :: 0 <= c < NBUF ==> !Recyclable(buf[c])
    ensures n in Dirty(buf)
  {
    var b := where[n];
    assert buf[b].blockno == n && buf[b].dirty;
  }

  /** Writing a locked buffer through keeps the view. */
  lemma WrittenThrough(buf: seq<Buf>, where: map<nat, nat>, view: seq<Block>, disk: seq<Block>, b: nat)
    requires Consistent(buf, where, view, disk) && b < NBUF && buf[b].locked && buf[b].valid
    ensures buf[b].blockno < |disk|
    ensures Consistent(buf[b := buf[b].(dirty := false)], where, view, disk[buf[b].blockno := buf[b].data])
  {
    var disk' := disk[buf[b].blockno := buf[b].data];
    var buf' := buf[b := buf[b].(dirty := false)];
    forall c | 0 <= c < NBUF ensures BufOk(buf'[c], view, disk') {
      if c != b { Unique(buf, where, b, c); }
    }
    assert forall c :: 0 <= c < |buf'| ==> buf'[c].dev == buf[c].dev && buf'[c].blockno == buf[c].blockno;
  }

  /** Releasing a locked buffer publishes its contents. */
  lemma Releasing(buf: seq<Buf>, where: map<nat, nat>, view: seq<Block>, disk: seq<Block>, b: nat)
    requires Consistent(buf, where, view, disk) && b < NBUF && buf[b].locked && buf[b].valid
    requires buf[b].blockno < |disk| && (buf[b].dirty || disk[buf[b].blockno] == buf[b].data)
    ensures buf[b].refcnt > 0
    ensures Consistent(buf[b := buf[b].(locked := false, refcnt := buf[b].refcnt - 1)], where,
                       view[buf[b].blockno := buf[b].data], disk)
  {
    var view' := view[buf[b].blockno := buf[b].data];
    assert BufOk(buf[b], view, disk);
    var buf' := buf[b := buf[b].(locked := false, refcnt := buf[b].refcnt - 1)];
    forall c | 0 <= c < NBUF ensures BufOk(buf'[c], view', disk) {
      if c != b { Unique(buf, where, b, c); }
    }
    assert forall c :: 0 <= c < |buf'| ==> buf'[c].dev == buf[c].dev && buf'[c].blockno == buf[c].blockno;
  }

  /** Bypassing one buffer leaves the others linked in their order. */
  lemma Unlinking(next: seq<nat>, prev: seq<nat>, s: seq<nat>, k: nat)
    requires |next| == |prev| == NBUF + 1 && (forall i :: 0 <= i < |s| ==> s[i] < NBUF)
    requires Distinct(s) && Linked(next, prev, s) && k < |s|
    ensures next[s[k]] <= HEAD && prev[s[k]] <= HEAD
    ensures Linked(next[prev[s[k]] := next[s[k]]], prev[next[s[k]] := prev[s[k]]], s[..k] + s[k + 1..])
  {
    var t := s[..k] + s[k + 1..];
    var next', prev' := next[prev[s[k]] := next[s[k]]], prev[next[s[k]] := prev[s[k]]];
    forall i {:trigger next'[t[i]]} | 0 <= i < |t|
      ensures next'[t[i]] == if i + 1 < |t| then t[i + 1] else HEAD
    {
      var j := if i < k then i else i + 1;
      assert t[i] == s[j] && next[s[j]] == if j + 1 < |s| then s[j + 1] else HEAD;
    }
    forall i {:trigger prev'[t[i]]} | 0 <= i < |t|
      ensures prev'[t[i]] == if i > 0 then t[i - 1] else HEAD
    {
      var j := if i < k then i else i + 1;
      assert t[i] == s[j] && prev[s[j]] == if j > 0 then s[j - 1] else HEAD;
    }
  }

  /** Where an element of the list with the k-th moved to the front came from. */
  function Origin(k: nat, i: nat): nat {
    if i == 0 then k else if i <= k then i - 1 else i
  }

  lemma FrontAt(s: seq<nat>, t: seq<nat>, k: nat, i: nat)
    requires k < |s| && t == [s[k]] + (s[..k] + s[k + 1..]) && i < |s|
    ensures |t| == |s| && t[i] == s[Origin(k, i)]
  {
  }

  /** The list `t` is `s` with one buffer moved to the front. */
  ghost predicate Fronted(s: seq<nat>, t: seq<nat>, b: nat) {
    exists k :: 0 <= k < |s| && s[k] == b && t == [b] + (s[..k] + s[k + 1..])
  }

  /** Moving one buffer to the front keeps the list a permutation. */
  lemma FrontPermutation(s: seq<nat>, t: seq<nat>, b: nat)
    requires Permutation(s) && b < NBUF && Fronted(s, t, b)
    ensures Permutation(t)
  {
    var k :| 0 <= k < |s| && s[k] == b && t == [b] + (s[..k] + s[k + 1..]);
    assert |t| == |s|;
    forall i | 0 <= i < |t| ensures t[i] == s[Origin(k, i)] {
      FrontAt(s, t, k, i);
    }
    FrontMembers(s, t, k);
  }

  lemma FrontMembers(s: seq<nat>, t: seq<nat>, k: nat)
    requires Permutation(s) && k < |s| == |t| && forall i :: 0 <= i < |t| ==> t[i] == s[Origin(k, i)]
    ensures Permutation(t)
  {
    forall c: nat | c < NBUF ensures c in t {
      assert c in s;
      var i :| 0 <= i < |s| && s[i] == c;
      var j := if i == k then 0 else if i < k then i + 1 else i;
      assert t[j] == c;
    }
  }

  /** When buffer `b` was last released, as a place in the log of releases; 0 if it never was. */
  ghost function Last(log: seq<nat>, b: nat): (n: nat)
    ensures n <= |log|
  {
    if log == [] then 0
    else if log[|log| - 1] == b then |log|
    else Last(log[..|log| - 1], b)
  }

  /** The list is in the order of the last releases, the latest first. */
  ghost predicate Recent(s: seq<nat>, log: seq<nat>) {
    forall i, j :: 0 <= i < j < |s| ==> Last(log, s[i]) >= Last(log, s[j])
  }

  lemma LastNext(log: seq<nat>, x: nat, b: nat)
    ensures Last(log + [x], b) == if b == x then |log| + 1 else Last(log, b)
  {
    assert (log + [x])[..|log|] == log;
  }

  /** Moving a released buffer to the front keeps the order. */
  lemma FrontRecent(s: seq<nat>, t: seq<nat>, log: seq<nat>, b: nat)
    requires Recent(s, log) && Distinct(s) && Fronted(s, t, b)
    ensures Recent(t, log + [b])
  {
    hide Last;
    var k :| 0 <= k < |s| && s[k] == b && t == [b] + (s[..k] + s[k + 1..]);
    forall i, j | 0 <= i < j < |t| ensures Last(log + [b], t[i]) >= Last(log + [b], t[j]) {
      FrontAt(s, t, k, i);
      FrontAt(s, t, k, j);
      LastNext(log, b, t[i]);
      LastNext(log, b, t[j]);
      assert Last(log, t[j]) <= |log|;
    }
  }

  ghost predicate Free(buf: seq<Buf>, b: nat) {
    b < |buf| && Recyclable(buf[b])
  }

  /** Of the buffers that may be recycled `b` is the last on the list, and was released the longest ago. */
  ghost predicate Oldest(buf: seq<Buf>, s: seq<nat>, log: seq<nat>, b: nat) {
    && Free(buf, b)
    && (exists k :: 0 <= k < |s| && s[k] == b && forall j :: k < j < |s| ==> !Free(buf, s[j]))
    && (forall c: nat :: Free(buf, c) ==> Last(log, c) >= Last(log, b))
  }

  lemma OldestAt(buf: seq<Buf>, s: seq<nat>, log: seq<nat>, k: nat)
    requires |buf| == NBUF && Permutation(s) && Recent(s, log) && k < |s| && Free(buf, s[k])
    requires forall j :: k < j < |s| ==> !Free(buf, s[j])
    ensures Oldest(buf, s, log, s[k])
  {
    hide Last;
    forall c: nat | Free(buf, c) ensures Last(log, c) >= Last(log, s[k]) {
      assert c in s;
      var i :| 0 <= i < |s| && s[i] == c;
      assert i <= k;
    }
  }

  lemma NoneReleased(s: seq<nat>)
    ensures Recent(s, [])
  {
  }

  class Bcache {
    var buf: seq<Buf>
    var prev: seq<nat>
    var next: seq<nat>
    var disk: seq<Block>          // memdisk
    ghost var lru: seq<nat>       // the list order, head.next first
    ghost var released: seq<nat>  // every buffer whose last user has let it go, in order
    ghost var view: seq<Block>
    ghost var where: map<nat, nat>
    ghost var writes: seq<Write>  // every block write, in order

    /** The list is a circle through HEAD and a permutation of all the buffers, the last released ones first. */
    ghost predicate Shape()
      reads this`prev, this`next, this`lru, this`released
    {
      && |prev| == |next| == NBUF + 1
      && Permutation(lru) && Linked(next, prev, lru) && Recent(lru, released)
    }

    ghost predicate Valid()
      reads this
    {
      Shape() && Consistent(buf, where, view, disk)
    }

    /** binit: every buffer is inserted at the front of the empty ring. */
    constructor (image: seq<Block>)
      ensures Valid() && disk == image && view == image && writes == [] && released == []
      ensures where == map[] && forall b :: 0 <= b < NBUF ==> buf[b] == FRESH_BUF
    {
      buf := seq(NBUF, _ => FRESH_BUF);
      prev, next := seq(NBUF + 1, _ => HEAD), seq(NBUF + 1, _ => HEAD);
      disk, view, writes, lru, released, where := image, image, [], [], [], map[];
      new;
      for b := 0 to NBUF
        invariant |prev| == |next| == NBUF + 1
        invariant |lru| == b && forall j :: 0 <= j < b ==> lru[j] == b - 1 - j
        invariant Linked(next, prev, lru)
        invariant buf == seq(NBUF, _ => FRESH_BUF)
        invariant disk == view == image && writes == [] && where == map[] && released == []
      {
        InsertFront(b);
      }
      forall b: nat | b < NBUF ensures b in lru {
        assert lru[NBUF - 1 - b] == b;
      }
      NoneReleased(lru);
    }

    /** Link `b`, which is not on the list, in front of it. */
    method InsertFront(b: nat)
      requires |next| == |prev| == NBUF + 1 && b < NBUF
      requires (forall i :: 0 <= i < |lru| ==> lru[i] < NBUF) && Distinct(lru) && b !in lru
      requires Linked(next, prev, lru)
      modifies this`lru, this`next, this`prev
      ensures |next| == |prev| == NBUF + 1
      ensures lru == [b] + old(lru) && Linked(next, prev, lru)
    {
      next := next[b := next[HEAD]];
      prev := prev[b := HEAD];
      prev := prev[next[HEAD] := b];
      next := next[HEAD := b];
      lru := [b] + lru;
    }

    /** bget's forward scan: the buffer that caches the block, or HEAD. */
    method FindCached(dev: nat, blockno: nat) returns (b: nat)
      requires Shape() && |buf| == NBUF
      ensures b <= HEAD
      ensures b < NBUF ==> buf[b].dev == dev && buf[b].blockno == blockno
      ensures b == HEAD ==>
                forall c :: 0 <= c < NBUF ==> !(buf[c].dev == dev && buf[c].blockno == blockno)
    {
      b := next[HEAD];
      ghost var k := 0;
      while b != HEAD
        invariant 0 <= k <= |lru| && b == (if k < |lru| then lru[k] else HEAD)
        invariant forall j :: 0 <= j < k ==> !(buf[lru[j]].dev == dev && buf[lru[j]].blockno == blockno)
        decreases |lru| - k
      {
        if buf[b].dev == dev && buf[b].blockno == blockno {
          return;
        }
        b := next[b];
        k := k + 1;
      }
      forall c | 0 <= c < NBUF ensures !(buf[c].dev == dev && buf[c].blockno == blockno) {
        assert c in lru;
      }
    }

    /** bget's backward scan: the least recently used buffer that may be recycled, or HEAD. */
    method FindRecyclable() returns (b: nat)
      requires Shape() && |buf| == NBUF
      ensures b <= HEAD
      ensures b < NBUF ==> Recyclable(buf[b]) && Oldest(buf, lru, released, b)
      ensures b == HEAD ==> forall c :: 0 <= c < NBUF ==> !Recyclable(buf[c])
    {
      b := prev[HEAD];
      ghost var k := |lru|;
      while b != HEAD
        invariant 0 <= k <= |lru| && b == (if k > 0 then lru[k - 1] else HEAD)
        invariant forall j :: k <= j < |lru| ==> !Recyclable(buf[lru[j]])
        decreases k
      {
        if buf[b].refcnt == 0 && !buf[b].dirty {
          OldestAt(buf, lru, released, k - 1);
          return;
        }
        b := prev[b];
        k := k - 1;
      }
      forall c | 0 <= c < NBUF ensures !Recyclable(buf[c]) {
        assert c in lru;
      }
    }

    /** The critical section of bget: find or recycle a buffer and take a reference; HEAD is its panic. */
    method Bget(blockno: nat) returns (b: nat)
      requires Valid() && blockno < |view|
      modifies this`buf, this`where
      ensures Valid() && b <= HEAD
      ensures b == HEAD <==>
              blockno !in old(where) && forall c :: 0 <= c < NBUF ==> !Recyclable(old(buf)[c])
      ensures b == HEAD ==> where == old(where) && buf == old(buf)
      ensures b < HEAD ==>
                && buf[b].blockno == blockno && blockno in where && where[blockno] == b
                && buf == old(buf)[b := buf[b]]
                && if blockno in old(where)
                   then where == old(where) && buf[b] == old(buf)[b].(refcnt := old(buf)[b].refcnt + 1)
                   else && Oldest(old(buf), lru, released, b)
                        && buf[b] == Buf(false, false, 1, blockno, old(buf)[b].locked, 1, old(buf)[b].data)
    {
      hide Linked, Permutation, Recent, Oldest;
      b := FindCached(1, blockno);
      if b != HEAD {
        KeepsView(buf, where, view, disk, b, buf[b].(refcnt := buf[b].refcnt + 1));
        buf := buf[b := buf[b].(refcnt := buf[b].refcnt + 1)];
      } else {
        b := FindRecyclable();
        if b != HEAD {
          Recycle(b, blockno);
        }
      }
    }

    /** Gives an unused clean buffer to a block that is not cached. */
    method Recycle(b: nat, blockno: nat)
      requires Valid() && b < NBUF && Recyclable(buf[b]) && blockno !in where && blockno < |view|
      modifies this`buf, this`where
      ensures Valid() && blockno in where && where[blockno] == b
      ensures buf == old(buf)[b := Buf(false, false, 1, blockno, old(buf)[b].locked, 1, old(buf)[b].data)]
    {
      hide Linked, Permutation;
      assert BufOk(buf[b], view, disk);
      var b' := buf[b].(dev := 1, blockno := blockno, valid := false, dirty := false, refcnt := 1);
      Recycling(buf, where, view, disk, b, b');
      where := (if buf[b].dev == 1 then where - {buf[b].blockno} else where)[blockno := b];
      buf := buf[b := b'];
    }

    /** Sync a buffer with the disk: a dirty buffer is written, otherwise an invalid one is read. */
    method Iderw(b: nat)
      requires |buf| == NBUF && b < NBUF
      requires buf[b].locked && (buf[b].dirty || !buf[b].valid)
      requires buf[b].dev == 1 && buf[b].blockno < |disk|
      modifies this`buf, this`disk, this`writes
      ensures old(buf)[b].dirty ==>
                && buf == old(buf)[b := old(buf)[b].(dirty := false, valid := true)]
                && disk == old(disk)[buf[b].blockno := buf[b].data]
                && writes == old(writes) + [Write(buf[b].blockno, buf[b].data)]
      ensures !old(buf)[b].dirty ==>
                && disk == old(disk) && writes == old(writes)
                && buf == old(buf)[b := old(buf)[b].(data := disk[old(buf)[b].blockno], valid := true)]
    {
      if buf[b].dirty {
        buf := buf[b := buf[b].(dirty := false)];
        disk := disk[buf[b].blockno := buf[b].data];
        writes := writes + [Write(buf[b].blockno, buf[b].data)];
      } else {
        buf := buf[b := buf[b].(data := disk[buf[b].blockno])];
      }
      buf := buf[b := buf[b].(valid := true)];
    }

    /** The buffer of block `blockno`, locked and holding the block's contents; HEAD when bget panics. */
    method Bread(blockno: nat) returns (b: nat)
      requires Valid() && blockno < |view|
      requires blockno in where ==> !buf[where[blockno]].locked   // acquiresleep has waited for the lock
      modifies this`buf, this`where, this`disk, this`writes
      ensures Valid() && b <= HEAD && disk == old(disk) && writes == old(writes)
      ensures b == HEAD <==>
              blockno !in old(where) && forall c :: 0 <= c < NBUF ==> !Recyclable(old(buf)[c])
      ensures b == HEAD ==> where == old(where) && buf == old(buf)
      ensures b < HEAD ==>
                && blockno in where && where[blockno] == b
                && buf == old(buf)[b := buf[b]]
                && buf[b].valid && buf[b].locked && buf[b].data == view[blockno]
                && (buf[b].dirty || buf[b].data == disk[blockno])
                && if blockno in old(where)
                   then && where == old(where) && buf[b].dirty == old(buf)[b].dirty
                        && buf[b].refcnt == old(buf)[b].refcnt + 1
                   else Recyclable(old(buf)[b]) && !buf[b].dirty && buf[b].refcnt == 1
    {
      hide Linked, Permutation;
      b := Bget(blockno);
      if b != HEAD {
        assert buf[b].dev == 1 && BufOk(buf[b], view, disk);
        hide Consistent;
        Load(b);
      }
    }

    /** Locks a buffer, and reads its block where that has not been done. */
    method Load(b: nat)
      requires Valid() && b < NBUF && !buf[b].locked && buf[b].refcnt > 0 && buf[b].dev == 1 && buf[b].blockno < |view|
      modifies this`buf, this`disk, this`writes
      ensures Valid() && disk == old(disk) && writes == old(writes)
      ensures buf == old(buf)[b := old(buf)[b].(locked := true, valid := true, data := view[buf[b].blockno])]
      ensures buf[b].dirty || buf[b].data == disk[buf[b].blockno]
    {
      hide Linked, Permutation;
      assert BufOk(buf[b], view, disk);
      KeepsView(buf, where, view, disk, b, buf[b].(locked := true));
      buf := buf[b := buf[b].(locked := true)];
      if !buf[b].valid {
        KeepsView(buf, where, view, disk, b, buf[b].(data := disk[buf[b].blockno], valid := true));
        Iderw(b);
      }
    }

    /** Write a locked buffer's contents to the disk, which also clears its pin. */
    method Bwrite(b: nat)
      requires Valid() && b < NBUF && buf[b].locked && buf[b].valid
      modifies this`buf, this`disk, this`writes
      ensures Valid()
      ensures buf == old(buf)[b := old(buf)[b].(dirty := false)]
      ensures disk == old(disk)[buf[b].blockno := buf[b].data]
      ensures writes == old(writes) + [Write(buf[b].blockno, buf[b].data)]
    {
      assert BufOk(buf[b], view, disk);
      buf := buf[b := buf[b].(dirty := true)];
      Iderw(b);
      WrittenThrough(old(buf), where, view, old(disk), b);
    }

    /** The holder of a locked buffer changes its contents. */
    method SetData(b: nat, data: Block)
      requires Valid() && b < NBUF && buf[b].locked
      modifies this`buf
      ensures Valid() && buf == old(buf)[b := old(buf)[b].(data := data)]
    {
      assert BufOk(buf[b], view, disk);
      KeepsView(buf, where, view, disk, b, buf[b].(data := data));
      buf := buf[b := buf[b].(data := data)];
    }

    /** Pin a locked buffer in the cache, as log_write does. */
    method Pin(b: nat)
      requires Valid() && b < NBUF && buf[b].locked && buf[b].valid
      modifies this`buf
      ensures Valid() && buf == old(buf)[b := old(buf)[b].(dirty := true)]
    {
      assert BufOk(buf[b], view, disk);
      KeepsView(buf, where, view, disk, b, buf[b].(dirty := true));
      buf := buf[b := buf[b].(dirty := true)];
    }

    /**
     Release a locked buffer.  Its contents become what the view shows.  The holder has
     either written them to the disk or pinned them; the last user moves the buffer to
     the front of the list.
     */
    method Brelse(b: nat)
      requires Valid() && b < NBUF && buf[b].locked && buf[b].valid
      requires buf[b].dirty || disk[buf[b].blockno] == buf[b].data
      modifies this`buf, this`view, this`prev, this`next, this`lru, this`released
      ensures Valid()
      ensures buf == old(buf)[b := old(buf)[b].(locked := false, refcnt := old(buf)[b].refcnt - 1)]
      ensures view == old(view)[buf[b].blockno := buf[b].data]
      ensures buf[b].refcnt > 0 ==> lru == old(lru) && released == old(released)
      ensures buf[b].refcnt == 0 ==> released == old(released) + [b] && Fronted(old(lru), lru, b)
    {
      hide Linked, Permutation, Indexed;
      Releasing(buf, where, view, disk, b);
      view := view[buf[b].blockno := buf[b].data];
      buf := buf[b := buf[b].(locked := false)];
      buf := buf[b := buf[b].(refcnt := buf[b].refcnt - 1)];
      assert buf == old(buf)[b := old(buf)[b].(locked := false, refcnt := old(buf)[b].refcnt - 1)];
      if buf[b].refcnt == 0 {
        MoveToFront(b);
      }
    }

    method MoveToFront(b: nat)
      requires Shape() && b < NBUF
      modifies this`lru, this`next, this`prev, this`released
      ensures Shape() && released == old(released) + [b] && Fronted(old(lru), lru, b)
    {
      Unlink(b);
      InsertFront(b);
      FrontPermutation(old(lru), lru, b);
      FrontRecent(old(lru), lru, released, b);
      released := released + [b];
    }

    /** Take `b` off the list. */
    method Unlink(b: nat)
      requires Shape() && b < NBUF
      modifies this`lru, this`next, this`prev
      ensures |next| == |prev| == NBUF + 1
      ensures exists k :: 0 <= k < |old(lru)| && old(lru)[k] == b && lru == old(lru)[..k] + old(lru)[k + 1..]
      ensures Linked(next, prev, lru)
    {
      assert b in lru;
      ghost var k :| 0 <= k < |lru| && lru[k] == b;
      Unlinking(next, prev, lru, k);
      prev := prev[next[b] := prev[b]];
      next := next[prev[b] := next[b]];
      lru := lru[..k] + lru[k + 1..];
    }
  }
}
