/**
 The blocks that operations on a file log (fs.c, log.c): what they may log in any case, and
 exactly what they have logged once they are done.
 */
module FileLog {

  import opened Basics
  import opened Blocks
  import opened FileState
  import opened FileContents
  import opened LogCrash

  ghost predicate NoRepeats(lh: seq<Uint>) {
    forall a, b :: 0 <= a < b < |lh| ==> lh[a] != lh[b]
  }

  lemma NoneLogged()
    ensures NoRepeats([])
  {
  }

  lemma LoggedOnce(lh: seq<Uint>, b: Uint)
    requires NoRepeats(lh)
    ensures NoRepeats(Logged(lh, b))
    ensures forall c :: c in Logged(lh, b) <==> c in lh || c == b
  {
  }

  lemma {:induction false} SizeWithin(lh: seq<Uint>, bs: set<nat>)
    requires NoRepeats(lh) && forall c :: c in lh ==> c in bs
    ensures |lh| <= |bs|
    ensures (forall c :: c in bs ==> c in lh) ==> |lh| == |bs|
  {
    if lh != [] {
      var last := lh[|lh| - 1];
      var rest := lh[..|lh| - 1];
      assert lh == rest + [last];
      forall c | c in rest ensures c in bs - {last} {
      }
      SizeWithin(rest, bs - {last});
      if forall c :: c in bs ==> c in lh {
        forall c | c in bs - {last} ensures c in rest {
        }
      }
    } else if forall c :: c in bs ==> c in lh {
      assert bs == {};
    }
  }

  lemma SizeExactly(lh: seq<Uint>, bs: set<nat>)
    requires NoRepeats(lh) && forall c: nat :: c in lh <==> c in bs
    ensures |lh| == |bs|
  {
    hide NoRepeats;
    SizeWithin(lh, bs);
  }

  /** Since the disk was `start`, every block that has changed has been logged. */
  ghost predicate Covered(start: seq<Block>, disk: seq<Block>, lh: seq<Uint>) {
    |start| == |disk| && forall n: nat :: n < |disk| && disk[n] != start[n] ==> n in lh
  }

  lemma CoveredSelf(disk: seq<Block>, lh: seq<Uint>)
    ensures Covered(disk, disk, lh)
  {
  }

  /** A store that is logged. */
  lemma CoveredMore(start: seq<Block>, disk: seq<Block>, disk': seq<Block>, lh: seq<Uint>, lh': seq<Uint>, b: nat)
    requires Covered(start, disk, lh) && |disk'| == |disk| && b in lh' && forall c: nat :: c in lh ==> c in lh'
    requires forall n: nat :: n < |disk| && n != b ==> disk'[n] == disk[n]
    ensures Covered(start, disk', lh')
  {
  }

  ghost predicate MapBlock(sb: Super, c: nat) {
    sb.bmapstart <= c <= sb.bmapstart + sb.size / BPB
  }

  /** The blocks an operation on blocks `from..to` of file i may log. */
  ghost predicate Touched(sb: Super, s: State, i: nat, from: nat, to: nat, c: nat) {
    || c == IBlock(sb, i) || MapBlock(sb, c)
    || (c in s.owner && s.owner[c].inum == i && (s.owner[c].k == INDIRECT || from <= s.owner[c].k < to))
  }

  ghost predicate Within(sb: Super, s: State, i: nat, from: nat, to: nat, lh: seq<Uint>, lh': seq<Uint>) {
    forall c :: c in lh' ==> c in lh || Touched(sb, s, i, from, to, c)
  }

  lemma WithinTwice(sb: Super, s: State, s': State, i: nat, from: nat, to: nat, from': nat, to': nat,
                    lh0: seq<Uint>, lh1: seq<Uint>, lh2: seq<Uint>)
    requires Within(sb, s, i, from, to, lh0, lh1) && Within(sb, s', i, from', to', lh1, lh2) && OwnersKept(s, s')
    requires from <= from' <= to' && to <= to'
    ensures Within(sb, s', i, from, to', lh0, lh2)
  {
    forall c | c in lh2 ensures c in lh0 || Touched(sb, s', i, from, to', c) {
      assert c in lh1 || Touched(sb, s', i, from', to', c);
    }
  }

  /** No slot owns two blocks. */
  ghost predicate OneEach(owner: map<nat, Slot>) {
    forall b, c :: b in owner && c in owner && owner[b] == owner[c] ==> b == c
  }

  lemma InvOneEach(sb: Super, s: State)
    requires Inv(sb, s)
    ensures OneEach(s.owner)
  {
    hide Addr, Used, Slots;
  }

  lemma OwnersTwice(s0: State, s1: State, s2: State)
    requires OwnersKept(s0, s1) && OwnersKept(s1, s2)
    ensures OwnersKept(s0, s2)
  {
  }

  lemma WithinNothing(sb: Super, s: State, i: nat, k: nat, lh: seq<Uint>)
    ensures Within(sb, s, i, k, k + 1, lh, lh) && OwnersKept(s, s)
  {
  }

  lemma WithinOne(sb: Super, s: State, s': State, i: nat, k: nat,
                  lh0: seq<Uint>, lh1: seq<Uint>, lh2: seq<Uint>, a: Uint)
    requires Within(sb, s, i, k, k + 1, lh0, lh1) && s'.owner == s.owner
    requires (forall c :: c in lh2 ==> c in lh1 || c == a) && a in s.owner && s.owner[a] == Slot(i, k)
    ensures Within(sb, s', i, k, k + 1, lh0, lh2)
  {
  }

  lemma WithinStart(sb: Super, s: State, i: nat, from: nat, to: nat, lh: seq<Uint>)
    ensures Within(sb, s, i, from, to, lh, lh) && OwnersKept(s, s)
  {
  }

  lemma WithinWider(sb: Super, s: State, i: nat, from: nat, to: nat, to': nat, lh0: seq<Uint>, lh1: seq<Uint>)
    requires Within(sb, s, i, from, to, lh0, lh1) && to <= to'
    ensures Within(sb, s, i, from, to', lh0, lh1)
  {
  }

  lemma WithinInode(sb: Super, s: State, s': State, i: nat, from: nat, to: nat,
                    lh0: seq<Uint>, lh1: seq<Uint>, lh2: seq<Uint>)
    requires Within(sb, s, i, from, to, lh0, lh1) && s'.owner == s.owner
    requires forall c :: c in lh2 ==> c in lh1 || c == IBlock(sb, i)
    ensures Within(sb, s', i, from, to, lh0, lh2)
  {
  }

  lemma WithinIndirect(sb: Super, s: State, i: nat, k: nat, lh0: seq<Uint>, lh1: seq<Uint>)
    requires Within(sb, s, i, INDIRECT, INDIRECT + 1, lh0, lh1)
    ensures Within(sb, s, i, k, k + 1, lh0, lh1)
  {
  }

  // ---------- the log of one block ----------

  /** One taken block: its map block and itself. */
  ghost predicate Gained(sb: Super, lh: seq<Uint>, lh': seq<Uint>, b: nat) {
    forall c: nat :: c in lh' <==> c in lh || c == BBlock(sb, b) || c == b
  }

  lemma OneMap(sb: Super, s: State, s': State, b: nat, t: Slot, c: nat)
    requires s'.owner == s.owner[b := t] && b !in s.owner
    ensures NewMap(sb, s, s', c) <==> c == BBlock(sb, b)
  {
    hide BBlock;
    assert b in s'.owner;
  }

  lemma OneEntry(s: State, i: nat, k: nat)
    requires i < |s.itab| && k < MAXFILE && Addr(s, i, k) == 0
    ensures EntryMissing(s, i, k, k + 1) <==> k >= NDIRECT
  {
    hide Addr;
  }

  /** A direct slot was empty. */
  lemma GainsDirect(sb: Super, s: State, s': State, i: nat, k: nat, b: nat, lh: seq<Uint>, lh': seq<Uint>)
    requires Owners(sb, s) && Owners(sb, s') && i < |s.itab| && k < NDIRECT && Addr(s, i, k) == 0 && b !in s.owner
    requires s'.owner == s.owner[b := Slot(i, k)] && Gained(sb, lh, lh', b)
    ensures LogGains(sb, s, s', i, k, k + 1, lh, lh')
  {
    OneEntry(s, i, k);
    forall c: nat ensures c in lh' <==> c in lh || Wrote(sb, s, s', i, k, k + 1, c) {
      OneMap(sb, s, s', b, Slot(i, k), c);
      NoOwner(sb, s, i, k, c);
      hide NewMap, EntryMissing, Addr, Owned, Slots;
    }
  }

  /** An empty slot has no block. */
  lemma NoOwner(sb: Super, s: State, i: nat, k: nat, c: nat)
    requires Owners(sb, s) && i < |s.itab| && k <= INDIRECT && Addr(s, i, k) == 0
    ensures c in s.owner ==> s.owner[c] != Slot(i, k)
  {
    hide Addr;
  }

  /** A slot that the indirect block lists was empty. */
  lemma GainsEntry(sb: Super, s: State, s': State, i: nat, k: nat, b: nat, lh: seq<Uint>, lh': seq<Uint>)
    requires Owners(sb, s) && Owners(sb, s') && i < |s.itab| && NDIRECT <= k < MAXFILE && Addr(s, i, k) == 0
    requires b !in s.owner && s'.owner == s.owner[b := Slot(i, k)]
    requires Addr(s, i, INDIRECT) != 0 && |s'.itab| == |s.itab| && Addr(s', i, INDIRECT) == Addr(s, i, INDIRECT)
    requires forall c: nat :: c in lh' <==> c in lh || c == BBlock(sb, b) || c == b || c == Addr(s, i, INDIRECT)
    ensures LogGains(sb, s, s', i, k, k + 1, lh, lh')
  {
    OneEntry(s, i, k);
    SlotBlock(sb, s, i, INDIRECT);
    forall c: nat ensures c in lh' <==> c in lh || Wrote(sb, s, s', i, k, k + 1, c) {
      OneMap(sb, s, s', b, Slot(i, k), c);
      NoOwner(sb, s, i, k, c);
      OnlyOwner(sb, s, i, INDIRECT, c);
      hide NewMap, EntryMissing, Addr, Owned, Slots;
    }
  }

  lemma OnlyOwner(sb: Super, s: State, i: nat, k: nat, c: nat)
    requires Owners(sb, s) && i < |s.itab| && k <= INDIRECT && Addr(s, i, k) != 0
    ensures c in s.owner && s.owner[c] == Slot(i, k) <==> c == Addr(s, i, k)
  {
    hide Addr;
    SlotBlock(sb, s, i, k);
  }

  /** And so was the indirect block. */
  lemma GainsBoth(sb: Super, s: State, s1: State, s': State, i: nat, k: nat, b1: nat, b: nat,
                  lh: seq<Uint>, lh1: seq<Uint>, lh': seq<Uint>)
    requires Owners(sb, s) && Owners(sb, s1) && Owners(sb, s') && i < |s.itab| && NDIRECT <= k < MAXFILE
    requires Addr(s, i, k) == 0 && Addr(s1, i, k) == 0 && Addr(s, i, INDIRECT) == 0 && Addr(s1, i, INDIRECT) == b1 != 0
    requires b1 !in s.owner && s1.owner == s.owner[b1 := Slot(i, INDIRECT)] && Gained(sb, lh, lh1, b1)
    requires b !in s1.owner && s'.owner == s1.owner[b := Slot(i, k)] && OwnersKept(s, s1) && OwnersKept(s1, s')
    requires LogGains(sb, s1, s', i, k, k + 1, lh1, lh')
    ensures LogGains(sb, s, s', i, k, k + 1, lh, lh')
  {
    OneEntry(s, i, k);
    OneEntry(s1, i, k);
    forall c: nat ensures c in lh' <==> c in lh || Wrote(sb, s, s', i, k, k + 1, c) {
      OneMap(sb, s, s1, b1, Slot(i, INDIRECT), c);
      NewMapTwice(sb, s, s1, s', c);
      OnlyOwner(sb, s1, i, INDIRECT, c);
      hide NewMap, EntryMissing, Addr, Owned, Slots, Gained, OwnersKept;
      assert c in lh1 <==> c in lh || c == BBlock(sb, b1) || c == b1 by { GainedAt(sb, lh, lh1, b1, c); }
    }
  }

  lemma GainedAt(sb: Super, lh: seq<Uint>, lh': seq<Uint>, b: nat, c: nat)
    requires Gained(sb, lh, lh', b)
    ensures c in lh' <==> c in lh || c == BBlock(sb, b) || c == b
  {
  }

  /** The block that is written to is logged, whether it was there or not. */
  lemma GainsData(sb: Super, s: State, s1: State, i: nat, k: nat, lh: seq<Uint>, lh1: seq<Uint>, lh': seq<Uint>,
                  a: Uint)
    requires Owners(sb, s) && Owners(sb, s1) && i < |s.itab| == |s1.itab| && k < MAXFILE && Addr(s1, i, k) == a != 0
    requires if Addr(s, i, k) != 0 then s1 == s && lh1 == lh else LogGains(sb, s, s1, i, k, k + 1, lh, lh1)
    requires forall c :: c in lh' <==> c in lh1 || c == a
    ensures LogGains(sb, s, s1, i, k, k + 1, lh, lh')
  {
    SlotBlock(sb, s1, i, k);
    if Addr(s, i, k) != 0 {
      assert !EntryMissing(s, i, k, k + 1);
      forall c: nat ensures c in lh' <==> c in lh || Wrote(sb, s, s1, i, k, k + 1, c) {
        OnlyOwner(sb, s, i, k, c);
        hide EntryMissing, Addr, Owned, Slots;
        assert !NewMap(sb, s, s, c);
      }
    } else {
      forall c: nat ensures c in lh' <==> c in lh || Wrote(sb, s, s1, i, k, k + 1, c) {
        OnlyOwner(sb, s1, i, k, c);
        hide EntryMissing, NewMap, Addr, Owned, Slots;
        assert c in lh1 <==> c in lh || Wrote(sb, s, s1, i, k, k + 1, c);
      }
    }
  }

  /** The blocks that writei has logged. */
  ghost predicate LogOfWrite(sb: Super, s: State, s': State, i: nat, src: seq<Byte>, off: nat, lh: seq<Uint>,
                             lh': seq<Uint>)
    requires i < |s.itab|
  {
    forall c: nat :: c in lh' <==>
      || c in lh || Wrote(sb, s, s', i, off / BSIZE, End(off, |src|), c)
      || (Grows(s, i, src, off) && c == IBlock(sb, i))
  }

  lemma LogOfSame(sb: Super, s: State, s': State, i: nat, src: seq<Byte>, off: nat, lh: seq<Uint>, lh': seq<Uint>)
    requires i < |s.itab| && !Grows(s, i, src, off)
    requires LogGains(sb, s, s', i, off / BSIZE, End(off, |src|), lh, lh')
    ensures LogOfWrite(sb, s, s', i, src, off, lh, lh')
  {
    hide Wrote;
  }

  lemma LogOfGrown(sb: Super, s: State, s1: State, s': State, i: nat, src: seq<Byte>, off: nat,
                   lh: seq<Uint>, lh1: seq<Uint>, lh': seq<Uint>)
    requires i < |s.itab| && Grows(s, i, src, off) && s'.owner == s1.owner
    requires LogGains(sb, s, s1, i, off / BSIZE, End(off, |src|), lh, lh1)
    requires forall c :: c in lh' <==> c in lh1 || c == IBlock(sb, i)
    ensures LogOfWrite(sb, s, s', i, src, off, lh, lh')
  {
    SameOwnersLog(sb, s, s1, s', i, off / BSIZE, End(off, |src|), lh, lh1);
    hide Wrote;
  }

  /** The write up to `tot` and its next part make the write up to `tot + m`. */
  lemma PartAdded(sb: Super, s0: State, s1: State, s2: State, i: nat, src: seq<Byte>, off: nat, tot: nat, m: nat,
                  lh0: seq<Uint>, lh1: seq<Uint>, lh2: seq<Uint>)
    requires Owners(sb, s0) && i < |s0.itab| && |s1.itab| == |s0.itab| && |s1.disk| == |s0.disk| && tot + m <= |src|
    requires (off + tot) / BSIZE <= End(off, tot) <= End(off, tot + m) <= MAXFILE
    requires Written(sb, s0, s1, i, src[..tot], off, End(off, tot))
    requires Written(sb, s1, s2, i, src[tot..tot + m], off + tot, End(off, tot + m))
    requires LogGains(sb, s0, s1, i, off / BSIZE, End(off, tot), lh0, lh1)
    requires LogGains(sb, s1, s2, i, (off + tot) / BSIZE, End(off, tot + m), lh1, lh2)
    ensures Written(sb, s0, s2, i, src[..tot + m], off, End(off, tot + m)) && |s2.itab| == |s0.itab|
    ensures LogGains(sb, s0, s2, i, off / BSIZE, End(off, tot + m), lh0, lh2)
  {
    hide Addr, ByteAt, Owned, Slots, Placed, OthersKept, OwnersKept, Laid, LogGains, Need;
    WrittenFacts(sb, s1, s2, i, src[tot..tot + m], off + tot, End(off, tot + m));
    WrittenTwice(sb, s0, s1, s2, i, src, off, tot, m, End(off, tot), End(off, tot + m));
    LogGainsTwice(sb, s0, s1, s2, i, off / BSIZE, End(off, tot), (off + tot) / BSIZE, End(off, tot + m), lh0, lh1, lh2);
  }

  /** What the log sees depends on the owners only. */
  lemma SameOwnersLog(sb: Super, s: State, s1: State, s2: State, i: nat, from: nat, to: nat, lh: seq<Uint>,
                      lh': seq<Uint>)
    requires i < |s.itab| && s2.owner == s1.owner && LogGains(sb, s, s1, i, from, to, lh, lh')
    ensures LogGains(sb, s, s2, i, from, to, lh, lh')
  {
    hide EntryMissing;
    forall c: nat ensures Wrote(sb, s, s2, i, from, to, c) <==> Wrote(sb, s, s1, i, from, to, c) {
      assert NewMap(sb, s, s2, c) <==> NewMap(sb, s, s1, c);
    }
  }
}
