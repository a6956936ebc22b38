/**
 What several modules share: C's unsigned char and unsigned int, an optional value, and counting.
 */
module Basics {

  const UINT_LIMIT: nat := 0x1_0000_0000

  type Byte = x: int | 0 <= x < 256
  type Uint = x: int | 0 <= x < 0x1_0000_0000

  datatype Option<T> = None | Some(value: T)

  /** The numbers from `from` up to but not `to`. */
  ghost function Range(from: nat, to: nat): (s: set<nat>)
    requires from <= to
    ensures |s| == to - from && forall x :: x in s <==> from <= x < to
  {
    if from == to then {} else Range(from, to - 1) + {to - 1}
  }

  lemma SubsetSize<T>(a: set<T>, b: set<T>)
    requires a <= b
    ensures |a| <= |b|
    ensures |b - a| == |b| - |a|
  {
    assert b == a + (b - a);
  }
}
