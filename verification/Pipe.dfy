/**
 Pipes (pipe.c): a ring of PIPESIZE bytes between two free-running 32-bit counters.

 `accepted` and `consumed` are all bytes ever written and read.  A method is what one
 process does between acquiring the pipe's lock and giving it up, by returning or by
 sleeping, so its invariant holds in every interleaving of readers and writers.
 */
module Pipe {

  import opened Basics

  const PIPESIZE: nat := 512

  datatype WriteOutcome = Wrote | WriteSleeps | WriteFails
  datatype ReadOutcome = Read(bytes: seq<Byte>) | ReadSleeps | ReadFails

  /** The value of a counter after `n` increments, and the slot it selects. */
  function Counter(n: nat): nat {
    n % UINT_LIMIT
  }

  function Slot(n: nat): (k: nat)
    ensures k < PIPESIZE
  {
    n % PIPESIZE
  }

  /** Counters wrap at a multiple of the ring size, so they index the ring correctly. */
  lemma SameSlot(n: nat)
    ensures Counter(n) % PIPESIZE == Slot(n)
  {
    var q := n / UINT_LIMIT;
    assert n == (q * 0x80_0000) * PIPESIZE + n % UINT_LIMIT;
    SlotShift(n % UINT_LIMIT, q * 0x80_0000);
  }

  lemma {:induction false} SlotShift(m: nat, k: nat)
    ensures Slot(k * PIPESIZE + m) == Slot(m)
    decreases k
  {
    if k > 0 {
      SlotShift(m, k - 1);
      assert k * PIPESIZE + m == (k - 1) * PIPESIZE + m + PIPESIZE;
    }
  }

  /** Two positions less than one ring apart use different slots. */
  lemma SlotsDiffer(j: nat, k: nat)
    requires j < k < j + PIPESIZE
    ensures Slot(j) != Slot(k)
  {
  }

  lemma CounterNext(n: nat)
    ensures (Counter(n) + 1) % UINT_LIMIT == Counter(n + 1)
  {
    var q := n / UINT_LIMIT;
    assert n == q * UINT_LIMIT + n % UINT_LIMIT;
  }

  /** Wrapped counters differ by exactly the number of bytes in the pipe. */
  lemma CounterGap(r: nat, w: nat)
    requires r <= w <= r + PIPESIZE
    ensures (Counter(w) - Counter(r)) % UINT_LIMIT == w - r
    ensures Counter(w) == (Counter(r) + PIPESIZE) % UINT_LIMIT <==> w == r + PIPESIZE
    ensures Counter(w) == Counter(r) <==> w == r
  {
    var a, b := r / UINT_LIMIT, w / UINT_LIMIT;
    assert r == a * UINT_LIMIT + r % UINT_LIMIT && w == b * UINT_LIMIT + w % UINT_LIMIT;
    assert b == a || b == a + 1;
  }

  class Pipe {
    const data: array<Byte>
    var nread: nat
    var nwrite: nat
    var readopen: bool
    var writeopen: bool
    ghost var accepted: seq<Byte>
    ghost var consumed: seq<Byte>

    ghost predicate Valid()
      reads this, data
    {
      && data.Length == PIPESIZE
      && nread == Counter(|consumed|) && nwrite == Counter(|accepted|)
      && consumed <= accepted && |accepted| <= |consumed| + PIPESIZE
      && (forall k :: |consumed| <= k < |accepted| ==> InSlot(k, accepted[k]))
    }

    ghost predicate InSlot(k: nat, b: Byte)
      requires data.Length == PIPESIZE
      reads data
    {
      data[Slot(k)] == b
    }

    /** The bytes in the pipe. */
    ghost function Pending(): seq<Byte>
      requires |consumed| <= |accepted|
      reads this
    {
      accepted[|consumed|..]
    }

    /** The counters' difference, wrapped, is the number of bytes in the pipe, and at most its size. */
    lemma Fill()
      requires Valid()
      ensures (nwrite - nread) % UINT_LIMIT == |Pending()| <= PIPESIZE
    {
      hide Counter, InSlot;
      CounterGap(|consumed|, |accepted|);
    }

    constructor ()
      ensures Valid() && fresh(data) && accepted == [] && readopen && writeopen
    {
      data := new Byte[PIPESIZE](_ => 0);
      nread, nwrite, readopen, writeopen := 0, 0, true, true;
      accepted, consumed := [], [];
    }

    method PutByte(b: Byte)
      requires Valid() && nwrite != (nread + PIPESIZE) % UINT_LIMIT
      modifies this`nwrite, this`accepted, data
      ensures Valid() && accepted == old(accepted) + [b]
    {
      hide Counter, Slot;
      CounterGap(|consumed|, |accepted|);
      SameSlot(|accepted|);
      CounterNext(|accepted|);
      forall k | |consumed| <= k < |accepted| ensures Slot(k) != Slot(|accepted|) {
        SlotsDiffer(k, |accepted|);
      }
      assert forall k :: |consumed| <= k < |accepted| ==> InSlot(k, accepted[k]);
      data[nwrite % PIPESIZE] := b;
      nwrite := (nwrite + 1) % UINT_LIMIT;
      accepted := accepted + [b];
    }

    method GetByte() returns (b: Byte)
      requires Valid() && nread != nwrite
      modifies this`nread, this`consumed
      ensures Valid() && |old(consumed)| < |accepted|
      ensures consumed == old(consumed) + [b] == accepted[..|consumed|]
    {
      hide Counter, Slot;
      CounterGap(|consumed|, |accepted|);
      SameSlot(|consumed|);
      CounterNext(|consumed|);
      assert InSlot(|consumed|, accepted[|consumed|]);
      b := data[nread % PIPESIZE];
      nread := (nread + 1) % UINT_LIMIT;
      consumed := consumed + [b];
    }

    /**
     pipewrite from byte `from` of `addr` until it is done, must sleep or fails.  Exactly
     the bytes before `i` have been accepted, in order.
     */
    method Write(addr: seq<Byte>, from: nat, killed: bool) returns (i: nat, r: WriteOutcome)
      requires Valid() && from <= |addr|
      modifies this`nwrite, this`accepted, data
      ensures Valid() && from <= i <= |addr| && accepted == old(accepted) + addr[from..i]
      ensures r == Wrote <==> i == |addr|
      ensures r != Wrote ==> |Pending()| == 512
      ensures r == WriteFails ==> !readopen || killed
      ensures r == WriteSleeps ==> readopen && !killed
    {
      hide Counter, Slot;
      i := from;
      while i < |addr|
        invariant Valid() && from <= i <= |addr| && accepted == old(accepted) + addr[from..i]
      {
        if nwrite == (nread + PIPESIZE) % UINT_LIMIT {
          CounterGap(|consumed|, |accepted|);
          r := if !readopen || killed then WriteFails else WriteSleeps;
          return;
        }
        PutByte(addr[i]);
        assert addr[from..i + 1] == addr[from..i] + [addr[i]];
        i := i + 1;
      }
      r := Wrote;
    }

    /**
     piperead from its check that the pipe is not empty.  It returns the oldest pending
     bytes, as many as there are up to `n`, and none only if it asked for none or the pipe
     is empty with its write end closed.
     */
    method ReadUpTo(n: int, killed: bool) returns (r: ReadOutcome)
      requires Valid()
      modifies this`nread, this`consumed
      ensures Valid()
      ensures r.Read? ==>
                && r.bytes <= old(Pending()) && consumed == old(consumed) + r.bytes
                && |r.bytes| == (if n < 0 then 0 else if n < |old(Pending())| then n else |old(Pending())|)
                && (n > 0 && r.bytes == [] ==> old(Pending()) == [] && !writeopen)
      ensures !r.Read? ==> consumed == old(consumed) && Pending() == [] && writeopen && (killed == r.ReadFails?)
    {
      hide Counter, Slot;
      CounterGap(|consumed|, |accepted|);
      if nread == nwrite && writeopen {
        r := if killed then ReadFails else ReadSleeps;
        return;
      }
      var bytes: seq<Byte>, i := [], 0;
      while i < n && nread != nwrite
        invariant Valid() && |bytes| == i && (n >= 0 ==> i <= n) && (n < 0 ==> i == 0)
        invariant consumed == old(consumed) + bytes
        decreases n - i
      {
        var b := GetByte();
        bytes := bytes + [b];
        i := i + 1;
      }
      CounterGap(|consumed|, |accepted|);
      assert bytes == old(Pending())[..i];
      r := Read(bytes);
    }

    /** pipeclose; both ends closed free the pipe. */
    method Close(writable: bool) returns (gone: bool)
      requires Valid()
      modifies this`readopen, this`writeopen
      ensures Valid() && gone == (!readopen && !writeopen)
      ensures if writable then !writeopen && readopen == old(readopen) else !readopen && writeopen == old(writeopen)
    {
      if writable {
        writeopen := false;
      } else {
        readopen := false;
      }
      gone := !readopen && !writeopen;
    }
  }
}
