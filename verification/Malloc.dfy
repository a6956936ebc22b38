/**
 The user-level allocator (umalloc.c): an address-ordered circular free list with
 coalescing.  Addresses count header-sized units.

 `blocks` are all blocks, free and live, by the address of their header; `owner` says
 which block each unit belongs to, and its keys are everything sbrk ever returned.
 */
module Malloc {

  import opened Basics

  const HEADER: nat := 16                  // sizeof(Header)
  const MINCORE: nat := 4096

  // ---------- the arena ----------

  /** The blocks tile exactly the units of `owner`, all above `base` and within 2^32 units of it. */
  ghost predicate Tiles(base: int, blocks: map<int, int>, owner: map<int, int>) {
    && (forall u :: u in owner ==> base < u < base + UINT_LIMIT && InBlock(blocks, owner[u], u))
    && (forall a :: a in blocks ==> blocks[a] >= 1)
    && (forall a, u :: InBlock(blocks, a, u) ==> u in owner && owner[u] == a)
  }

  ghost predicate InBlock(blocks: map<int, int>, a: int, u: int) {
    a in blocks && a <= u < a + blocks[a]
  }

  /** Two blocks never overlap, and no block reaches 2^32 units. */
  lemma Disjoint(base: int, blocks: map<int, int>, owner: map<int, int>, a: int, b: int)
    requires Tiles(base, blocks, owner) && a in blocks && b in blocks && a < b
    ensures a + blocks[a] <= b
  {
    assert InBlock(blocks, b, b);
    assert !InBlock(blocks, a, b);
  }

  lemma SizeFits(base: int, blocks: map<int, int>, owner: map<int, int>, a: int)
    requires Tiles(base, blocks, owner) && a in blocks
    ensures base < a && a + blocks[a] <= base + UINT_LIMIT
  {
    assert InBlock(blocks, a, a) && InBlock(blocks, a, a + blocks[a] - 1);
  }

  ghost function Reowned(owner: map<int, int>, lo: int, hi: int, a: int): (m: map<int, int>)
    ensures m.Keys == owner.Keys
  {
    map u | u in owner :: if lo <= u < hi then a else owner[u]
  }

  /** Joining a block with the one that starts where it ends. */
  lemma MergeTiles(base: int, blocks: map<int, int>, owner: map<int, int>, a: int, b: int)
    requires Tiles(base, blocks, owner) && a in blocks && b in blocks && a + blocks[a] == b
    ensures Tiles(base, (blocks - {b})[a := blocks[a] + blocks[b]], Reowned(owner, b, b + blocks[b], a))
  {
    var blocks' := (blocks - {b})[a := blocks[a] + blocks[b]];
    var owner' := Reowned(owner, b, b + blocks[b], a);
    forall c, u | InBlock(blocks', c, u) ensures u in owner' && owner'[u] == c {
      assert InBlock(blocks, if c == a && u >= b then b else c, u);
      assert b <= u < b + blocks[b] ==> InBlock(blocks, b, u);
    }
    forall u | u in owner' ensures InBlock(blocks', owner'[u], u) {
      assert InBlock(blocks, owner[u], u);
      assert b <= u < b + blocks[b] ==> InBlock(blocks, b, u);
    }
  }

  /** Cutting the last `n` units of a block off as a block of their own. */
  lemma SplitTiles(base: int, blocks: map<int, int>, owner: map<int, int>, a: int, n: int)
    requires Tiles(base, blocks, owner) && a in blocks && 1 <= n < blocks[a]
    ensures a + blocks[a] - n !in blocks
    ensures Tiles(base, blocks[a := blocks[a] - n][a + blocks[a] - n := n],
                  Reowned(owner, a + blocks[a] - n, a + blocks[a], a + blocks[a] - n))
  {
    var b := a + blocks[a] - n;
    assert InBlock(blocks, a, b);
    assert b in blocks ==> InBlock(blocks, b, b);
    var blocks' := blocks[a := blocks[a] - n][b := n];
    var owner' := Reowned(owner, b, b + n, b);
    forall c, u | InBlock(blocks', c, u) ensures u in owner' && owner'[u] == c {
      assert InBlock(blocks, if c == b then a else c, u);
      assert b <= u < b + n ==> InBlock(blocks, a, u);
    }
    forall u | u in owner' ensures InBlock(blocks', owner'[u], u) {
      assert InBlock(blocks, owner[u], u);
      assert b <= u < b + n ==> InBlock(blocks, a, u);
    }
  }

  /** The units of a region of `n` units at `a`, all owned by `a`. */
  ghost function Region(a: int, n: nat): (m: map<int, int>)
    ensures forall u :: u in m <==> a <= u < a + n
    ensures forall u :: u in m ==> m[u] == a
  {
    if n == 0 then map[] else Region(a, n - 1)[a + n - 1 := a]
  }

  /** A fresh region from sbrk is one more block. */
  lemma GrowTiles(base: int, blocks: map<int, int>, owner: map<int, int>, a: int, n: int)
    requires Tiles(base, blocks, owner) && n >= 1
    requires Fresh(base, owner, Some(a), n)
    ensures a !in blocks && a > base
    ensures Tiles(base, blocks[a := n], owner + Region(a, n))
  {
    assert a !in owner && (a in blocks ==> InBlock(blocks, a, a));
    var blocks', owner' := blocks[a := n], owner + Region(a, n);
    forall c, u | InBlock(blocks', c, u) ensures u in owner' && owner'[u] == c {
      assert c != a ==> InBlock(blocks, c, u);
    }
    forall u | u in owner' ensures InBlock(blocks', owner'[u], u) {
      assert u in owner ==> InBlock(blocks, owner[u], u);
    }
  }

  // ---------- the free list ----------

  /**
   `fl` is the free list in address order, the static header `base` first: the links form
   one circle, and no free block reaches the next.
   */
  ghost predicate Ring(base: int, ptr: map<int, int>, size: map<int, int>, fl: seq<int>) {
    LooseRing(base, ptr, size, fl, 1, 0)
  }

  ghost predicate Below(fl: seq<int>, i: int, j: int)
    requires 0 <= i < j < |fl|
  {
    fl[i] < fl[j]
  }

  ghost predicate Sorted(fl: seq<int>) {
    forall i, j :: 0 <= i < j < |fl| ==> Below(fl, i, j)
  }

  /** The links lead from each block of the list to the next and from the last to `base`. */
  ghost predicate Chain(base: int, ptr: map<int, int>, fl: seq<int>) {
    && (forall i :: 0 <= i < |fl| ==> fl[i] in ptr)
    && (forall i {:trigger ptr[fl[i]]} :: 0 <= i < |fl| ==>
          ptr[fl[i]] == if i + 1 < |fl| then fl[i + 1] else base)
  }

  ghost predicate Sized(base: int, size: map<int, int>, fl: seq<int>) {
    && (forall i :: 0 <= i < |fl| ==> fl[i] in size)
    && base in size && size[base] == 0
    && (forall i :: 1 <= i < |fl| ==> size[fl[i]] >= 1)
  }

  /** No block reaches into the next, and only the blocks at indices lo..hi may touch it. */
  ghost predicate Gaps(size: map<int, int>, fl: seq<int>, lo: int, hi: int)
    requires forall i :: 0 <= i < |fl| ==> fl[i] in size
  {
    forall i {:trigger size[fl[i]]} :: 0 <= i < |fl| - 1 ==>
      && fl[i] + size[fl[i]] <= fl[i + 1]
      && (fl[i] + size[fl[i]] == fl[i + 1] ==> lo <= i <= hi)
  }

  /** A ring in which the blocks at indices lo..hi may also touch the next one. */
  ghost predicate LooseRing(base: int, ptr: map<int, int>, size: map<int, int>, fl: seq<int>, lo: int, hi: int) {
    && |fl| >= 1 && fl[0] == base && Sorted(fl)
    && Chain(base, ptr, fl) && Sized(base, size, fl) && Gaps(size, fl, lo, hi)
  }

  /** The free list and the live blocks are among the blocks, which carry their size in their header. */
  ghost predicate Headers(base: int, size: map<int, int>, fl: seq<int>, blocks: map<int, int>) {
    && (forall a :: a in blocks ==> a in size && size[a] == blocks[a])
    && (forall i :: 1 <= i < |fl| ==> fl[i] in blocks)
  }

  /** Where a block at `bp` belongs in the list: behind index `i`. */
  ghost predicate Place(fl: seq<int>, bp: int, i: nat) {
    i < |fl| && fl[i] < bp && (i + 1 < |fl| ==> bp < fl[i + 1])
  }

  ghost function InsertAt(fl: seq<int>, bp: int, i: nat): (t: seq<int>)
    requires i < |fl|
    ensures |t| == |fl| + 1 && t[i + 1] == bp
    ensures forall k {:trigger t[k]} :: 0 <= k <= i ==> t[k] == fl[k]
    ensures forall k {:trigger t[k]} :: i + 1 < k < |t| ==> t[k] == fl[k - 1]
  {
    fl[..i + 1] + [bp] + fl[i + 1..]
  }

  ghost function RemoveAt(fl: seq<int>, i: nat): (t: seq<int>)
    requires i < |fl|
    ensures |t| == |fl| - 1
    ensures forall k {:trigger t[k]} :: 0 <= k < i ==> t[k] == fl[k]
    ensures forall k {:trigger t[k]} :: i <= k < |t| ==> t[k] == fl[k + 1]
  {
    fl[..i] + fl[i + 1..]
  }

  /** Linking a block in behind index `i`; it may touch either neighbour. */
  lemma InsertRing(base: int, ptr: map<int, int>, size: map<int, int>, fl: seq<int>, bp: int, i: nat)
    requires Ring(base, ptr, size, fl) && Place(fl, bp, i) && bp in size && size[bp] >= 1
    requires fl[i] + size[fl[i]] <= bp && (i + 1 < |fl| ==> bp + size[bp] <= fl[i + 1])
    ensures LooseRing(base, ptr[bp := ptr[fl[i]]][fl[i] := bp], size, InsertAt(fl, bp, i), i, i + 1)
  {
    hide InsertAt, Gaps, Chain;
    InsertSorted(fl, bp, i);
    InsertChain(base, ptr, fl, bp, i);
    InsertGaps(size, fl, bp, i);
  }

  lemma InsertSorted(fl: seq<int>, bp: int, i: nat)
    requires Sorted(fl) && Place(fl, bp, i)
    ensures Sorted(InsertAt(fl, bp, i))
  {
    hide InsertAt;
    var t := InsertAt(fl, bp, i);
    forall j, k | 0 <= j < k < |t| ensures Below(t, j, k) {
      assert i < |fl| - 1 && k > i + 2 ==> Below(fl, i + 1, k - 1);
      assert j < i ==> Below(fl, j, i);
      assert k != i + 1 && j != i + 1 ==> Below(fl, if j <= i then j else j - 1, if k <= i then k else k - 1);
    }
  }

  lemma InsertChain(base: int, ptr: map<int, int>, fl: seq<int>, bp: int, i: nat)
    requires i < |fl| && Chain(base, ptr, fl) && Sorted(InsertAt(fl, bp, i))
    ensures Chain(base, ptr[bp := ptr[fl[i]]][fl[i] := bp], InsertAt(fl, bp, i))
  {
    hide InsertAt;
    var t, ptr' := InsertAt(fl, bp, i), ptr[bp := ptr[fl[i]]][fl[i] := bp];
    forall k {:trigger ptr'[t[k]]} | 0 <= k < |t|
      ensures t[k] in ptr' && ptr'[t[k]] == if k + 1 < |t| then t[k + 1] else base
    {
      assert Below(t, i, i + 1) && (k < i + 1 ==> Below(t, k, i + 1));
      assert k > i + 1 ==> Below(t, i + 1, k) && Below(t, i, k);
      assert k < i ==> Below(t, k, i);
      assert ptr[fl[i]] == if i + 1 < |fl| then fl[i + 1] else base;
      if k <= i {
        assert ptr[fl[k]] == if k + 1 < |fl| then fl[k + 1] else base;
      } else if k > i + 1 {
        assert ptr[fl[k - 1]] == if k < |fl| then fl[k] else base;
      }
    }
  }

  lemma InsertGaps(size: map<int, int>, fl: seq<int>, bp: int, i: nat)
    requires (forall k :: 0 <= k < |fl| ==> fl[k] in size) && Gaps(size, fl, 1, 0) && i < |fl| && bp in size
    requires fl[i] + size[fl[i]] <= bp && (i + 1 < |fl| ==> bp + size[bp] <= fl[i + 1])
    ensures forall k :: 0 <= k < |InsertAt(fl, bp, i)| ==> InsertAt(fl, bp, i)[k] in size
    ensures Gaps(size, InsertAt(fl, bp, i), i, i + 1)
  {
    hide InsertAt;
    var t := InsertAt(fl, bp, i);
    forall k {:trigger size[t[k]]} | 0 <= k < |t| - 1
      ensures t[k] + size[t[k]] <= t[k + 1] && (t[k] + size[t[k]] == t[k + 1] ==> i <= k <= i + 1)
    {
      if k < i {
        assert size[fl[k]] == size[t[k]];
      } else if k > i + 1 {
        assert size[fl[k - 1]] == size[t[k]];
      }
    }
  }

  /** Joining the block at index `i` with the next one, which it touches. */
  lemma JoinRing(base: int, ptr: map<int, int>, size: map<int, int>, fl: seq<int>, lo: int, i: nat)
    requires 1 <= i < |fl| - 1 && LooseRing(base, ptr, size, fl, lo, i)
    requires fl[i] + size[fl[i]] == fl[i + 1]
    ensures LooseRing(base, ptr[fl[i] := ptr[fl[i + 1]]], size[fl[i] := size[fl[i]] + size[fl[i + 1]]],
                      RemoveAt(fl, i + 1), lo, i - 1)
  {
    hide RemoveAt;
    var t := RemoveAt(fl, i + 1);
    forall j, k | 0 <= j < k < |t| ensures Below(t, j, k) {
      assert Below(fl, if j <= i then j else j + 1, if k <= i then k else k + 1);
    }
    forall k | 0 <= k < |t| && k != i ensures t[k] != fl[i] {
      assert if k < i then Below(t, k, i) else Below(t, i, k);
    }
    JoinChain(base, ptr, fl, i, t);
    JoinGaps(base, size, fl, lo, i, t);
  }

  lemma JoinChain(base: int, ptr: map<int, int>, fl: seq<int>, i: nat, t: seq<int>)
    requires 1 <= i < |fl| - 1 && Chain(base, ptr, fl)
    requires t == RemoveAt(fl, i + 1) && forall k :: 0 <= k < |t| && k != i ==> t[k] != fl[i]
    ensures Chain(base, ptr[fl[i] := ptr[fl[i + 1]]], t)
  {
    hide RemoveAt;
    var ptr' := ptr[fl[i] := ptr[fl[i + 1]]];
    forall k {:trigger ptr'[t[k]]} | 0 <= k < |t|
      ensures t[k] in ptr' && ptr'[t[k]] == if k + 1 < |t| then t[k + 1] else base
    {
      var m := if k < i then k else k + 1;
      assert ptr[fl[m]] == if m + 1 < |fl| then fl[m + 1] else base;
    }
  }

  lemma JoinGaps(base: int, size: map<int, int>, fl: seq<int>, lo: int, i: nat, t: seq<int>)
    requires 1 <= i < |fl| - 1 && fl[0] == base && Sized(base, size, fl) && Gaps(size, fl, lo, i)
    requires fl[i] + size[fl[i]] == fl[i + 1]
    requires t == RemoveAt(fl, i + 1) && forall k :: 0 <= k < |t| && k != i ==> t[k] != fl[i]
    ensures Sized(base, size[fl[i] := size[fl[i]] + size[fl[i + 1]]], t)
    ensures Gaps(size[fl[i] := size[fl[i]] + size[fl[i + 1]]], t, lo, i - 1)
  {
    hide RemoveAt;
    var size' := size[fl[i] := size[fl[i]] + size[fl[i + 1]]];
    assert t[0] == base;
    forall k {:trigger size'[t[k]]} | 0 <= k < |t| - 1
      ensures t[k] + size'[t[k]] <= t[k + 1] && (t[k] + size'[t[k]] == t[k + 1] ==> lo <= k <= i - 1)
    {
      var m := if k < i then k else k + 1;
      assert fl[m] + size[fl[m]] <= fl[m + 1];
    }
  }

  lemma NoJoin(base: int, ptr: map<int, int>, size: map<int, int>, fl: seq<int>, lo: int, i: nat)
    requires i < |fl| && LooseRing(base, ptr, size, fl, lo, i)
    requires i + 1 < |fl| ==> fl[i] + size[fl[i]] != fl[i + 1]
    ensures LooseRing(base, ptr, size, fl, lo, i - 1)
  {
  }

  /** Every address that is not in the list and lies above `base` has its place in it. */
  lemma {:induction false} PlaceExists(fl: seq<int>, bp: int) returns (i: nat)
    requires |fl| >= 1 && Sorted(fl) && fl[0] < bp && bp !in fl
    ensures Place(fl, bp, i)
  {
    var n := |fl| - 1;
    if fl[n] < bp {
      i := n;
    } else {
      assert fl[..n][0] == fl[0];
      forall j, k | 0 <= j < k < n ensures Below(fl[..n], j, k) {
        assert Below(fl, j, k);
      }
      i := PlaceExists(fl[..n], bp);
    }
  }

  /** What sbrk may return for `n` units: failure, or a fresh region above `base`. */
  ghost predicate Fresh(base: int, owner: map<int, int>, brk: Option<int>, n: nat) {
    brk.Some? ==> forall u :: brk.value <= u < brk.value + n ==> u !in owner && base < u < base + UINT_LIMIT
  }

  /** Some block of the free list has at least `n` units. */
  ghost predicate Fits(size: map<int, int>, fl: seq<int>, n: int) {
    exists j :: 0 <= j < |fl| && fl[j] in size && size[fl[j]] >= n
  }

  /** The index after `k` on a ring of `len` blocks. */
  function After(k: nat, len: nat): nat {
    if k + 1 < len then k + 1 else 0
  }

  /** How many links lead from index `a` to index `b`. */
  function Gap(a: nat, b: nat, len: nat): int {
    if a <= b then b - a else len - a + b
  }

  /** A scan from index `start` has come to `k`, and every block before it is too small. */
  ghost predicate Passed(size: map<int, int>, fl: seq<int>, start: nat, k: nat, n: int) {
    forall j: nat :: j < |fl| && Gap(start, j, |fl|) < Gap(start, k, |fl|) ==> fl[j] in size && size[fl[j]] < n
  }

  lemma PassedNext(size: map<int, int>, fl: seq<int>, f: nat, k: nat, n: int)
    requires f < |fl| && k < |fl| && k != f && Passed(size, fl, After(f, |fl|), k, n)
    requires fl[k] in size && size[fl[k]] < n
    ensures Passed(size, fl, After(f, |fl|), After(k, |fl|), n)
  {
    forall j: nat | j < |fl| && Gap(After(f, |fl|), j, |fl|) < Gap(After(f, |fl|), After(k, |fl|), |fl|)
      ensures fl[j] in size && size[fl[j]] < n
    {
      assert j != k ==> Gap(After(f, |fl|), j, |fl|) < Gap(After(f, |fl|), k, |fl|);
    }
  }

  lemma PassedNone(size: map<int, int>, fl: seq<int>, start: nat, n: int)
    requires start < |fl|
    ensures Passed(size, fl, start, start, n)
  {
  }

  /** Index `k` is the first from behind the block at `freep` on whose block fits. */
  ghost predicate FirstFit(size: map<int, int>, fl: seq<int>, freep: int, k: nat, n: int) {
    && k < |fl| && fl[k] in size && size[fl[k]] >= n
    && exists f: nat :: f < |fl| && fl[f] == freep && Passed(size, fl, After(f, |fl|), k, n)
  }

  lemma FitsFirst(size: map<int, int>, fl: seq<int>, f: nat, k: nat, n: int)
    requires f < |fl| && k < |fl| && fl[k] in size && size[fl[k]] >= n && Passed(size, fl, After(f, |fl|), k, n)
    ensures Fits(size, fl, n) && FirstFit(size, fl, fl[f], k, n)
  {
  }

  /** A scan that has come round to where it began has passed every block. */
  lemma PassedAll(size: map<int, int>, fl: seq<int>, f: nat, n: int)
    requires f < |fl| && Passed(size, fl, After(f, |fl|), f, n) && fl[f] in size && size[fl[f]] < n
    ensures !Fits(size, fl, n)
  {
    forall j: nat | j < |fl| ensures fl[j] in size && size[fl[j]] < n {
      assert j != f ==> Gap(After(f, |fl|), j, |fl|) < Gap(After(f, |fl|), f, |fl|);
    }
  }

  class Heap {
    const base: int
    var ptr: map<int, int>      // s.ptr of the header at each address
    var size: map<int, int>     // s.size of the header at each address
    var freep: Option<int>
    ghost var fl: seq<int>
    ghost var blocks: map<int, int>
    ghost var owner: map<int, int>

    ghost predicate Valid()
      reads this
    {
      if freep.None? then fl == [] && blocks == map[] && owner == map[]
      else && Ring(base, ptr, size, fl) && freep.value in fl
           && Tiles(base, blocks, owner) && Headers(base, size, fl, blocks)
    }

    /** The blocks that callers hold, with their sizes. */
    ghost function Live(): map<int, int>
      reads this
    {
      LiveOf(blocks, fl)
    }

    constructor (base: int)
      ensures Valid() && this.base == base && Live() == map[] && owner == map[]
    {
      this.base := base;
      ptr, size, freep := map[], map[], None;
      fl, blocks, owner := [], map[], map[];
    }

    /** free's search, from freep around the circle, for the free block below `bp`. */
    method FindPlace(bp: int) returns (p: int, ghost i: nat)
      requires freep.Some? && Ring(base, ptr, size, fl) && freep.value in fl && base < bp && bp !in fl
      ensures Place(fl, bp, i) && p == fl[i]
    {
      ghost var goal := PlaceExists(fl, bp);
      p := freep.value;
      i :| 0 <= i < |fl| && fl[i] == p;
      while !(bp > p && bp < ptr[p])
        invariant i < |fl| && p == fl[i]
        decreases if i <= goal then goal - i else |fl| - i + goal
      {
        assert ptr[fl[i]] == if i + 1 < |fl| then fl[i + 1] else base;
        assert i + 1 < |fl| ==> Below(fl, i, i + 1);
        assert 0 < i ==> Below(fl, 0, i);
        if p >= ptr[p] && (bp > p || bp < ptr[p]) {
          break;
        }
        assert i < goal ==> Below(fl, i, goal);
        assert goal + 1 < i ==> Below(fl, goal + 1, i);
        p := ptr[p];
        i := if i + 1 < |fl| then i + 1 else 0;
      }
      assert ptr[fl[i]] == if i + 1 < |fl| then fl[i + 1] else base;
    }

    /** free's first test: join `bp` with the free block above it, or point at that block. */
    method LinkHigh(bp: int, p: int, ghost i: nat)
      requires Ring(base, ptr, size, fl) && Tiles(base, blocks, owner) && Headers(base, size, fl, blocks)
      requires Place(fl, bp, i) && p == fl[i] && bp in blocks && bp !in fl
      modifies this`ptr, this`size, this`fl, this`blocks, this`owner
      ensures p in ptr && p in size && bp in ptr && bp in size
      ensures LooseRing(base, ptr[p := bp], size, fl, i, i) && i + 1 < |fl| && fl[i] == p && fl[i + 1] == bp
      ensures Tiles(base, blocks, owner) && Headers(base, size, fl, blocks)
      ensures Live() == old(Live()) - {bp} && owner.Keys == old(owner.Keys)
      ensures size[bp] >= old(blocks[bp])
    {
      hide Tiles, InsertAt, RemoveAt, Reowned, LiveOf, Ring, LooseRing, Headers;
      Room(base, ptr, size, fl, blocks, owner, bp, i);
      ghost var ptr0 := ptr;
      var next := ptr[p];
      Freed(base, ptr, size, fl, blocks, bp, i);
      fl := InsertAt(fl, bp, i);
      assert fl[i + 1] == bp && fl[i] == p;
      if bp + size[bp] == next {
        assert next == fl[i + 2];
        ghost var ptr1 := ptr0[bp := ptr0[p]][p := bp];
        Joined(base, ptr1, size, fl, i, i + 1, blocks, owner);
        size := size[bp := (size[bp] + size[next]) % UINT_LIMIT];
        ptr := ptr[bp := ptr[next]];
        assert ptr[p := bp] == ptr1[bp := ptr1[next]];
        owner := Reowned(owner, next, next + blocks[next], bp);
        blocks := (blocks - {next})[bp := blocks[bp] + blocks[next]];
        fl := RemoveAt(fl, i + 2);
      } else {
        ptr := ptr[bp := next];
        NoJoin(base, ptr[p := bp], size, fl, i, i + 1);
      }
    }

    /** free's second test: join the block that holds `bp` with the free block below it, or point at it. */
    method LinkLow(bp: int, p: int, ghost i: nat)
      requires p in ptr && p in size && bp in ptr && bp in size && bp > base
      requires LooseRing(base, ptr[p := bp], size, fl, i, i) && i + 1 < |fl| && fl[i] == p && fl[i + 1] == bp
      requires Tiles(base, blocks, owner) && Headers(base, size, fl, blocks)
      modifies this`ptr, this`size, this`fl, this`blocks, this`owner
      ensures Ring(base, ptr, size, fl) && p in fl
      ensures Tiles(base, blocks, owner) && Headers(base, size, fl, blocks)
      ensures Live() == old(Live()) && owner.Keys == old(owner.Keys)
      ensures p in ptr && p in size
      ensures size[p] >= old(size[bp]) || (ptr[p] == bp && bp in size && size[bp] >= old(size[bp]))
    {
      hide Tiles, InsertAt, RemoveAt, Reowned, LiveOf, LooseRing, Headers;
      if p + size[p] == bp {
        Joined(base, ptr[p := bp], size, fl, i, i, blocks, owner);
        size := size[p := (size[p] + size[bp]) % UINT_LIMIT];
        ptr := ptr[p := ptr[bp]];
        owner := Reowned(owner, bp, bp + blocks[bp], p);
        blocks := (blocks - {bp})[p := blocks[p] + blocks[bp]];
        fl := RemoveAt(fl, i + 1);
        assert fl[i] == p;
        assert ptr == old(ptr)[p := bp][p := old(ptr)[p := bp][bp]];
        assert size == old(size)[p := old(size)[p] + old(size)[bp]];
        Strict(base, ptr, size, fl, i);
      } else {
        ptr := ptr[p := bp];
        NoJoin(base, ptr, size, fl, i, i);
        Strict(base, ptr, size, fl, i);
      }
    }

    /** The free block at freep or the one behind it has at least `n` units. */
    ghost predicate Nearby(n: int)
      reads this
    {
      && freep.Some? && freep.value in ptr && freep.value in size
      && (size[freep.value] >= n || (ptr[freep.value] in size && size[ptr[freep.value]] >= n))
    }

    /**
     free: the block is live no longer, and nothing else changes hands.  The list stays a
     single circle in address order with no two free blocks adjacent.
     */
    method Free(bp: int)
      requires Valid() && bp in Live()
      modifies this
      ensures Valid() && freep.Some?
      ensures Live() == old(Live()) - {bp} && owner.Keys == old(owner.Keys)
      ensures Nearby(old(blocks[bp]))
    {
      hide Tiles, LooseRing, Headers;
      SizeFits(base, blocks, owner, bp);
      ghost var i: nat;
      var p: int;
      p, i := FindPlace(bp);
      LinkHigh(bp, p, i);
      LinkLow(bp, p, i);
      freep := Some(p);
    }

    /** A header-sized unit count that holds `nbytes` bytes and the header itself. */
    static function Units(nbytes: nat): (n: nat)
      ensures n >= 1 && nbytes <= 16 * (n - 1) < nbytes + 16
    {
      (nbytes + HEADER - 1) / HEADER + 1
    }

    static function Core(n: nat): nat {
      if n < MINCORE then MINCORE else n
    }

    /** morecore: the new region is freed into the list, near freep; no block changes hands. */
    method MoreCore(n: nat, brk: Option<int>) returns (p: Option<int>)
      requires Valid() && freep.Some? && n >= 1 && Fresh(base, owner, brk, Core(n))
      modifies this
      ensures Valid() && freep.Some? && Live() == old(Live())
      ensures p.None? == brk.None? && (p.Some? ==> p == freep && Nearby(n))
      ensures brk.None? ==> owner == old(owner)
      ensures brk.Some? ==>
                owner.Keys == old(owner.Keys) + Region(brk.value, if n < 4096 then 4096 else n).Keys
    {
      if brk.None? {
        return None;
      }
      var nu := if n < MINCORE then MINCORE else n;
      var hp := brk.value;
      GrowTiles(base, blocks, owner, hp, nu);
      Grown(base, ptr, size, fl, blocks, owner, hp, nu);
      size := size[hp := nu];
      blocks := blocks[hp := nu];
      owner := owner + Region(hp, nu);
      Free(hp);
      p := freep;
    }

    /** malloc's first call: an empty free list of the static header alone. */
    method Init()
      requires Valid() && freep.None?
      modifies this
      ensures Valid() && freep.Some? && Live() == old(Live()) && owner == old(owner)
      ensures fl == [base] && base in size && size[base] == 0
    {
      ptr := ptr[base := base];
      freep := Some(base);
      size := size[base := 0];
      fl := [base];
    }

    /** What the ring says about the block at index `k`. */
    lemma Links(k: nat)
      requires Valid() && freep.Some? && k < |fl|
      ensures fl[k] in fl && fl[k] in ptr && fl[k] in size && fl[k] >= base
      ensures ptr[fl[k]] == if k + 1 < |fl| then fl[k + 1] else base
      ensures fl[0] == base && base in size && size[base] == 0
      ensures k > 0 ==> fl[k] in blocks && size[fl[k]] == blocks[fl[k]] && fl[k] > base
    {
      hide Tiles;
      assert k > 0 ==> Below(fl, 0, k);
    }

    /** malloc's choice made: cut `n` units off the free block `p`, behind `prevp`. */
    method Take(p: int, prevp: int, n: nat, ghost j: nat) returns (q: int)
      requires Valid() && freep.Some? && 1 <= j < |fl| && fl[j] == p && fl[j - 1] == prevp
      requires p in size && 1 <= n <= size[p]
      modifies this
      ensures Valid() && freep == Some(prevp) && owner.Keys == old(owner.Keys)
      ensures q !in old(Live()) && Live() == old(Live())[q := n]
    {
      q := p;
      hide Tiles, RemoveAt, Reowned, LiveOf, LooseRing, Headers;
      Links(j);
      Links(j - 1);
      if size[p] == n {
        TakeWhole(base, ptr, size, fl, blocks, j);
        ptr := ptr[prevp := ptr[p]];
        fl := RemoveAt(fl, j);
        assert fl[j - 1] == prevp;
      } else {
        SplitTiles(base, blocks, owner, p, n);
        TakePart(base, ptr, size, fl, blocks, j, n);
        size := size[p := size[p] - n];
        q := p + size[p];
        size := size[q := n];
        owner := Reowned(owner, q, q + n, q);
        blocks := blocks[p := blocks[p] - n][q := n];
      }
      freep := Some(prevp);
    }

    ghost function Distance(a: nat, b: nat): nat
      requires a < |fl| && b < |fl|
      reads this
    {
      Gap(a, b, |fl|)
    }

    /** freep, or the block behind it, has room; a scan from behind freep meets it no later than freep. */
    lemma Ahead(n: nat) returns (f: nat, t: nat)
      requires Valid() && Nearby(n)
      ensures f < |fl| && t < |fl| && fl[f] == freep.value && fl[t] in size && size[fl[t]] >= n
      ensures var k := if f + 1 < |fl| then f + 1 else 0;
              fl[k] == ptr[freep.value] && Distance(k, t) <= Distance(k, f)
    {
      f :| 0 <= f < |fl| && fl[f] == freep.value;
      assert ptr[fl[f]] == if f + 1 < |fl| then fl[f + 1] else base;
      t := if size[freep.value] >= n then f else if f + 1 < |fl| then f + 1 else 0;
    }

    method MoreAhead(n: nat, brk: Option<int>) returns (p: Option<int>, ghost f: nat, ghost t: nat)
      requires Valid() && freep.Some? && n >= 1 && Fresh(base, owner, brk, Core(n))
      modifies this
      ensures Valid() && freep.Some? && Live() == old(Live())
      ensures p.None? ==> brk.None? && owner == old(owner)
      ensures p.Some? ==>
                && p == freep && brk.Some? && owner.Keys == old(owner.Keys) + Region(brk.value, Core(n)).Keys
                && f < |fl| && t < |fl| && fl[f] == p.value && fl[t] in size && size[fl[t]] >= n
                && var k := if f + 1 < |fl| then f + 1 else 0; Distance(k, t) <= Distance(k, f)
    {
      hide LooseRing, Tiles, Headers, LiveOf, Region, Fresh;
      p := MoreCore(n, brk);
      if p.Some? {
        f, t := Ahead(n);
      } else {
        f, t := 0, 0;
      }
    }

    /**
     malloc's scan from freep for a free block of `n` units: the first that fits, or, only if none
     does, one from morecore, which it calls at most once, because it meets the new region before it
     comes round to freep again.
     */
    method Scan(n: nat, brk: Option<int>) returns (found: bool, p: int, prevp: int, ghost k: nat, ghost grew: bool)
      requires Valid() && freep.Some? && n >= 1 && Fresh(base, owner, brk, Core(n))
      modifies this
      ensures Valid() && freep.Some? && Live() == old(Live())
      ensures !found ==> brk.None? && !grew
      ensures found ==> 1 <= k < |fl| && fl[k] == p && fl[k - 1] == prevp && p in size && size[p] >= n
      ensures grew ==> brk.Some? && owner.Keys == old(owner.Keys) + Region(brk.value, Core(n)).Keys
      ensures !grew ==> owner == old(owner)
      ensures found <==> Fits(old(size), old(fl), n) || brk.Some?
      ensures grew <==> brk.Some? && !Fits(old(size), old(fl), n)
      ensures found && !grew ==> fl == old(fl) && size == old(size) && FirstFit(size, fl, old(freep).value, k, n)
    {
      hide LooseRing, Tiles, Headers, LiveOf, Region, Core, Fresh, Distance, Valid, Live, Passed, Fits;
      prevp := freep.value;
      ghost var f: nat := FreepIndex();
      ghost var f0 := f;
      PassedNone(size, fl, After(f, |fl|), n);
      Links(f);
      p := ptr[prevp];
      grew := false;
      k := After(f, |fl|);
      ghost var t: nat := 0;
      Links(k);
      while size[p] < n
        invariant Valid() && freep.Some? && Live() == old(Live())
        invariant f < |fl| && k < |fl| && fl[f] == freep.value && fl[k] == p && p in size && p in ptr
        invariant fl[0] == base && base in size && size[base] == 0
        invariant prevp == if k > 0 then fl[k - 1] else fl[|fl| - 1]
        invariant !grew ==> owner == old(owner) && fl == old(fl) && size == old(size) && freep == old(freep) && f == f0
        invariant if grew then !Fits(old(size), old(fl), n) else Passed(size, fl, After(f, |fl|), k, n)
        invariant t < |fl|
        invariant grew ==> && brk.Some? && fl[t] in size && size[fl[t]] >= n
                           && Distance(k, t) <= Distance(k, f)
                           && owner.Keys == old(owner.Keys) + Region(brk.value, Core(n)).Keys
        decreases if grew then 0 else 1, Distance(k, f)
      {
        if p == freep.value {
          Once(k, f);
          Closer(k, f);
          Closer(k, t);
          assert !grew;
          PassedAll(size, fl, f, n);
          var more;
          more, f, t := MoreAhead(n, brk);
          if more.None? {
            found := false;
            return;
          }
          p, k, grew := more.value, f, true;
        }
        Links(k);
        Closer(k, f);
        Closer(k, t);
        if !grew {
          PassedNext(size, fl, f, k, n);
        }
        prevp := p;
        p := ptr[p];
        k := After(k, |fl|);
        Links(k);
      }
      found := true;
      if !grew {
        FitsFirst(size, fl, f, k, n);
      }
    }

    /**
     malloc: null exactly when no free block fits and sbrk fails; otherwise a block of exactly the
     units that the request needs, live from now on, and no other block changes.
     */
    method Malloc(nbytes: nat, brk: Option<int>) returns (r: Option<int>, ghost grew: bool)
      requires Valid() && Fresh(base, owner, brk, Core(Units(nbytes)))
      modifies this
      ensures Valid() && freep.Some?
      ensures r.None? ==> brk.None? && Live() == old(Live()) && owner == old(owner)
      ensures r.Some? ==> var q := r.value - 1;   // the header is the unit before the returned address
                          q !in old(Live()) && Live() == old(Live())[q := Units(nbytes)]
      ensures grew ==> brk.Some? && owner.Keys == old(owner.Keys) + Region(brk.value, Core(Units(nbytes))).Keys
      ensures !grew ==> owner.Keys == old(owner.Keys)
      ensures r.None? <==> brk.None? && !Fits(old(size), old(fl), Units(nbytes))
      ensures grew <==> brk.Some? && !Fits(old(size), old(fl), Units(nbytes))
    {
      hide LooseRing, Tiles, Headers, LiveOf, Region, Units, Core, Fresh, Fits, FirstFit;
      var nunits := Units(nbytes);
      if freep.None? {
        NothingFits(nunits);
        Init();
        NothingFits(nunits);
      }
      ghost var k: nat;
      var found, p, prevp;
      found, p, prevp, k, grew := Scan(nunits, brk);
      if !found {
        return None, grew;
      }
      var q := Take(p, prevp, nunits, k);
      r := Some(q + 1);
    }

    lemma NothingFits(n: nat)
      requires n >= 1 && (fl == [] || (fl == [base] && base in size && size[base] == 0))
      ensures !Fits(size, fl, n)
    {
    }

    lemma FreepIndex() returns (f: nat)
      requires Valid() && freep.Some?
      ensures f < |fl| && fl[f] == freep.value
    {
      f :| 0 <= f < |fl| && fl[f] == freep.value;
    }

    lemma Closer(a: nat, b: nat)
      requires a < |fl| && b < |fl|
      ensures Distance(a, b) == 0 <==> a == b
      ensures a != b ==> Distance(if a + 1 < |fl| then a + 1 else 0, b) == Distance(a, b) - 1
    {
    }

    lemma Once(a: nat, b: nat)
      requires Valid() && freep.Some? && a < |fl| && b < |fl| && fl[a] == fl[b]
      ensures a == b
    {
      hide Tiles;
      assert a < b ==> Below(fl, a, b);
      assert b < a ==> Below(fl, b, a);
    }
  }

  /** A free block of exactly the right size leaves the list. */
  lemma TakeWhole(base: int, ptr: map<int, int>, size: map<int, int>, fl: seq<int>, blocks: map<int, int>, j: nat)
    requires Ring(base, ptr, size, fl) && Headers(base, size, fl, blocks) && 1 <= j < |fl|
    ensures Ring(base, ptr[fl[j - 1] := ptr[fl[j]]], size, RemoveAt(fl, j))
    ensures Headers(base, size, RemoveAt(fl, j), blocks)
    ensures fl[j] in blocks && fl[j] !in LiveOf(blocks, fl)
    ensures LiveOf(blocks, RemoveAt(fl, j)) == LiveOf(blocks, fl)[fl[j] := blocks[fl[j]]]
  {
    hide RemoveAt, Chain, Gaps;
    var t := RemoveAt(fl, j);
    forall a, b | 0 <= a < b < |t| ensures Below(t, a, b) {
      assert Below(fl, if a < j then a else a + 1, if b < j then b else b + 1);
    }
    TakeChain(base, ptr, fl, j, t);
    TakeGaps(base, size, fl, j, t);
    assert fl[j] in fl;
    RemoveMembers(fl, j);
    assert forall x :: x in blocks && x !in t ==> x !in fl || x == fl[j];
    assert forall x :: x in blocks && x !in fl ==> x !in t;
    assert LiveOf(blocks, t) == LiveOf(blocks, fl)[fl[j] := blocks[fl[j]]];
  }

  lemma TakeChain(base: int, ptr: map<int, int>, fl: seq<int>, j: nat, t: seq<int>)
    requires Chain(base, ptr, fl) && 1 <= j < |fl| && t == RemoveAt(fl, j) && Sorted(t)
    ensures Chain(base, ptr[fl[j - 1] := ptr[fl[j]]], t)
  {
    hide RemoveAt;
    var ptr' := ptr[fl[j - 1] := ptr[fl[j]]];
    forall k {:trigger ptr'[t[k]]} | 0 <= k < |t|
      ensures t[k] in ptr' && ptr'[t[k]] == if k + 1 < |t| then t[k + 1] else base
    {
      var m := if k < j - 1 then k else k + 1;
      assert ptr[fl[m]] == if m + 1 < |fl| then fl[m + 1] else base;
      assert k > j - 1 ==> Below(t, j - 1, k);
      assert k < j - 1 ==> Below(t, k, j - 1);
    }
  }

  lemma TakeGaps(base: int, size: map<int, int>, fl: seq<int>, j: nat, t: seq<int>)
    requires Sized(base, size, fl) && Sorted(fl) && Gaps(size, fl, 1, 0) && 1 <= j < |fl| && t == RemoveAt(fl, j)
    ensures Sized(base, size, t) && Gaps(size, t, 1, 0)
  {
    hide RemoveAt;
    forall k {:trigger size[t[k]]} | 0 <= k < |t| - 1 ensures t[k] + size[t[k]] < t[k + 1] {
      var m := if k < j then k else k + 1;
      assert fl[m] + size[fl[m]] < fl[m + 1];
      assert k == j - 1 ==> Below(fl, j, j + 1);
    }
  }

  /** A larger free block keeps its place and loses its last units. */
  lemma TakePart(base: int, ptr: map<int, int>, size: map<int, int>, fl: seq<int>, blocks: map<int, int>,
                 j: nat, n: nat)
    requires Ring(base, ptr, size, fl) && Headers(base, size, fl, blocks) && 1 <= j < |fl|
    requires 1 <= n < size[fl[j]]
    requires fl[j] + size[fl[j]] - n !in blocks && fl[j] + size[fl[j]] - n > base
    ensures var p, q := fl[j], fl[j] + size[fl[j]] - n;
            var size', blocks' := size[p := size[p] - n][q := n], blocks[p := blocks[p] - n][q := n];
            && Ring(base, ptr, size', fl) && Headers(base, size', fl, blocks')
            && LiveOf(blocks', fl) == LiveOf(blocks, fl)[q := n]
            && q !in LiveOf(blocks, fl)
  {
    var p, q := fl[j], fl[j] + size[fl[j]] - n;
    assert q !in fl;
    var size' := size[p := size[p] - n][q := n];
    forall i | 0 <= i < |fl| && i != j ensures fl[i] != p {
      assert if i < j then Below(fl, i, j) else Below(fl, j, i);
    }
    assert forall i :: 0 <= i < |fl| ==> size'[fl[i]] == if i == j then size[p] - n else size[fl[i]];
  }

  /** A fresh region is a live block until it is freed. */
  lemma Grown(base: int, ptr: map<int, int>, size: map<int, int>, fl: seq<int>,
              blocks: map<int, int>, owner: map<int, int>, hp: int, n: int)
    requires Ring(base, ptr, size, fl) && Tiles(base, blocks, owner) && Headers(base, size, fl, blocks)
    requires hp !in blocks && hp > base && n >= 1
    ensures hp !in fl
    ensures Ring(base, ptr, size[hp := n], fl) && Headers(base, size[hp := n], fl, blocks[hp := n])
    ensures LiveOf(blocks[hp := n], fl) == LiveOf(blocks, fl)[hp := n]
    ensures LiveOf(blocks, fl)[hp := n] - {hp} == LiveOf(blocks, fl)
  {
    hide Tiles;
    assert hp !in fl;
    var size' := size[hp := n];
    assert forall i :: 0 <= i < |fl| ==> size'[fl[i]] == size[fl[i]];
  }

  ghost function LiveOf(blocks: map<int, int>, fl: seq<int>): map<int, int> {
    map a | a in blocks && a !in fl :: blocks[a]
  }

  lemma InsertMembers(fl: seq<int>, bp: int, i: nat)
    requires i < |fl|
    ensures forall a :: a in InsertAt(fl, bp, i) <==> a in fl || a == bp
  {
    var t := InsertAt(fl, bp, i);
    assert fl == fl[..i + 1] + fl[i + 1..];
    assert bp in t;
  }

  lemma RemoveMembers(fl: seq<int>, i: nat)
    requires i < |fl| && Sorted(fl)
    ensures forall a :: a in RemoveAt(fl, i) <==> a in fl && a != fl[i]
  {
    var t := RemoveAt(fl, i);
    assert fl == fl[..i] + [fl[i]] + fl[i + 1..];
    forall k | 0 <= k < |t| ensures t[k] != fl[i] {
      assert if k < i then Below(fl, k, i) else Below(fl, i, k + 1);
    }
  }

  lemma Strict(base: int, ptr: map<int, int>, size: map<int, int>, fl: seq<int>, i: nat)
    requires LooseRing(base, ptr, size, fl, i, i - 1)
    ensures Ring(base, ptr, size, fl)
  {
  }

  /** The live block at `bp` goes on the list. */
  lemma Freed(base: int, ptr: map<int, int>, size: map<int, int>, fl: seq<int>, blocks: map<int, int>,
              bp: int, i: nat)
    requires Ring(base, ptr, size, fl) && Headers(base, size, fl, blocks)
    requires Place(fl, bp, i) && bp in blocks && bp !in fl && bp in size && size[bp] >= 1
    requires fl[i] + size[fl[i]] <= bp && (i + 1 < |fl| ==> bp + size[bp] <= fl[i + 1])
    ensures LooseRing(base, ptr[bp := ptr[fl[i]]][fl[i] := bp], size, InsertAt(fl, bp, i), i, i + 1)
    ensures Headers(base, size, InsertAt(fl, bp, i), blocks)
    ensures LiveOf(blocks, InsertAt(fl, bp, i)) == LiveOf(blocks, fl) - {bp}
  {
    InsertRing(base, ptr, size, fl, bp, i);
    InsertMembers(fl, bp, i);
  }

  /** Two free blocks that touch become one; the live blocks and the arena do not change. */
  lemma Joined(base: int, ptr: map<int, int>, size: map<int, int>, fl: seq<int>, lo: int, k: nat,
               blocks: map<int, int>, owner: map<int, int>)
    requires LooseRing(base, ptr, size, fl, lo, k) && 0 <= k < |fl| - 1 && fl[k] + size[fl[k]] == fl[k + 1]
    requires Tiles(base, blocks, owner) && Headers(base, size, fl, blocks)
    ensures k >= 1 && fl[k] in blocks && fl[k + 1] in blocks && fl[k] < fl[k + 1]
    ensures size[fl[k]] >= 1 && size[fl[k + 1]] >= 1 && size[fl[k]] + size[fl[k + 1]] < UINT_LIMIT
    ensures var a, b := fl[k], fl[k + 1];
            var size', blocks' := size[a := size[a] + size[b]], (blocks - {b})[a := blocks[a] + blocks[b]];
            && LooseRing(base, ptr[a := ptr[b]], size', RemoveAt(fl, k + 1), lo, k - 1)
            && Tiles(base, blocks', Reowned(owner, b, b + blocks[b], a))
            && Headers(base, size', RemoveAt(fl, k + 1), blocks')
            && LiveOf(blocks', RemoveAt(fl, k + 1)) == LiveOf(blocks, fl)
  {
    hide RemoveAt, LiveOf, Chain, Gaps, Tiles, Reowned;
    assert Below(fl, k, k + 1);
    JoinRing(base, ptr, size, fl, lo, k);
    JoinedLive(base, size, fl, k, blocks);
    MergedFits(base, blocks, owner, fl[k], fl[k + 1]);
    MergeTiles(base, blocks, owner, fl[k], fl[k + 1]);
  }

  lemma JoinedLive(base: int, size: map<int, int>, fl: seq<int>, k: nat, blocks: map<int, int>)
    requires 1 <= k < |fl| - 1 && Sorted(fl) && Sized(base, size, fl) && Headers(base, size, fl, blocks)
    ensures var a, b := fl[k], fl[k + 1];
            var size', blocks' := size[a := size[a] + size[b]], (blocks - {b})[a := blocks[a] + blocks[b]];
            && Headers(base, size', RemoveAt(fl, k + 1), blocks')
            && LiveOf(blocks', RemoveAt(fl, k + 1)) == LiveOf(blocks, fl)
  {
    hide RemoveAt;
    RemoveMembers(fl, k + 1);
    assert Below(fl, k, k + 1);
    var a, b, t := fl[k], fl[k + 1], RemoveAt(fl, k + 1);
    var size', blocks' := size[a := size[a] + size[b]], (blocks - {b})[a := blocks[a] + blocks[b]];
    assert fl[k] in fl && fl[k + 1] in fl;
    forall i | 1 <= i < |t| ensures t[i] in blocks' {
      assert t[i] in t;
      var j := if i <= k then i else i + 1;
      assert t[i] == fl[j];
    }
    assert a in t by { assert t[k] == a; }
    assert forall x :: x in blocks' ==> x in blocks && x != b;
    assert forall x :: x in blocks' && x !in t ==> x !in fl && x != a;
    assert forall x :: x in blocks && x !in fl ==> x in blocks' && x !in t;
    assert LiveOf(blocks', t) == LiveOf(blocks, fl);
  }

  /** A live block fits between the free blocks around its place. */
  lemma Room(base: int, ptr: map<int, int>, size: map<int, int>, fl: seq<int>,
             blocks: map<int, int>, owner: map<int, int>, bp: int, i: nat)
    requires Ring(base, ptr, size, fl) && Tiles(base, blocks, owner) && Headers(base, size, fl, blocks)
    requires Place(fl, bp, i) && bp in blocks
    ensures bp in size && size[bp] == blocks[bp] >= 1 && base < bp && fl[i] in ptr && fl[i] in size
    ensures ptr[fl[i]] == if i + 1 < |fl| then fl[i + 1] else base
    ensures i + 1 < |fl| ==> fl[i + 1] in ptr && fl[i + 1] in size && fl[i + 1] in blocks
    ensures fl[i] + size[fl[i]] <= bp && (i + 1 < |fl| ==> bp + size[bp] <= fl[i + 1])
  {
    SizeFits(base, blocks, owner, bp);
    if i > 0 {
      Disjoint(base, blocks, owner, fl[i], bp);
    }
    if i + 1 < |fl| {
      Disjoint(base, blocks, owner, bp, fl[i + 1]);
    }
  }

  /** The size of two joined blocks does not wrap around. */
  lemma MergedFits(base: int, blocks: map<int, int>, owner: map<int, int>, a: int, b: int)
    requires Tiles(base, blocks, owner) && a in blocks && b in blocks && a + blocks[a] == b
    ensures 0 <= blocks[a] + blocks[b] < UINT_LIMIT
  {
    SizeFits(base, blocks, owner, a);
    SizeFits(base, blocks, owner, b);
  }
}
