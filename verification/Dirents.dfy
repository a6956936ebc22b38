/**
 Directory entries (fs.h, mkfs.c, string.c): 16 bytes, of which the first two are the inode
 number, low byte first, and the others a name that ends at its first zero or fills them.
 */
module Dirents {

  import opened Basics

  const DIRSIZ: nat := 14

  /** The bytes of a string up to its first zero, at most `k` of them. */
  function Upto(s: seq<Byte>, k: nat): (n: seq<Byte>)
    ensures n <= s && |n| <= k && 0 !in n && (|n| < k && |n| < |s| ==> s[|n|] == 0)
  {
    if k == 0 || s == [] || s[0] == 0 then [] else [s[0]] + Upto(s[1..], k - 1)
  }

  /** What strncpy and strncmp see of a name. */
  function Name(s: seq<Byte>): (n: seq<Byte>)
    ensures n <= s && |n| <= 14 && 0 !in n && (|n| < 14 && |n| < |s| ==> s[|n|] == 0)
  {
    Upto(s, DIRSIZ)
  }

  /** A prefix without zeroes that nothing could follow is the name. */
  lemma NameIs(s: seq<Byte>, n: seq<Byte>)
    requires n <= s && |n| <= 14 && 0 !in n && (|n| < 14 && |n| < |s| ==> s[|n|] == 0)
    ensures Name(s) == n
  {
    assert |Name(s)| == |n|;
  }

  /** An entry, as bzero, xshort and strncpy make it. */
  function Dirent(inum: nat, name: seq<Byte>): (t: seq<Byte>)
    requires inum < 0x1_0000
    ensures |t| == 16
  {
    var n := Name(name);
    [inum % 0x100, inum / 0x100] + n + seq(DIRSIZ - |n|, _ => 0)
  }

  /** The inode number of entry `e` of a directory. */
  function Inum(t: seq<Byte>, e: nat): nat
    requires 16 * e + 16 <= |t|
  {
    (t[16 * e] as int) + 0x100 * (t[16 * e + 1] as int)
  }

  /** The name field of entry `e`. */
  function Field(t: seq<Byte>, e: nat): (f: seq<Byte>)
    requires 16 * e + 16 <= |t|
    ensures |f| == 14
  {
    t[16 * e + 2..16 * e + 16]
  }

  /** What an entry is made from can be read back from it. */
  lemma DirentReads(t: seq<Byte>, e: nat, inum: nat, name: seq<Byte>)
    requires inum < 0x1_0000 && 16 * e + 16 <= |t| && t[16 * e..16 * e + 16] == Dirent(inum, name)
    ensures Inum(t, e) == inum && Name(Field(t, e)) == Name(name)
    ensures forall k: nat :: k < 14 ==> Field(t, e)[k] == if k < |Name(name)| then name[k] else 0
  {
    var d, n := Dirent(inum, name), Name(name);
    assert t[16 * e] == d[0] && t[16 * e + 1] == d[1];
    forall k: nat | k < 14 ensures Field(t, e)[k] == if k < |n| then name[k] else 0 {
      assert Field(t, e)[k] == d[k + 2];
    }
    assert n <= Field(t, e);
    NameIs(Field(t, e), n);
  }

  /** The entry is in use and has this name. */
  predicate Matches(t: seq<Byte>, e: nat, name: seq<Byte>)
    requires 16 * e + 16 <= |t|
  {
    Inum(t, e) != 0 && Name(Field(t, e)) == Name(name)
  }

  /** Entry `e` is the first to match. */
  ghost predicate FirstMatch(t: seq<Byte>, e: nat, name: seq<Byte>)
    requires 16 * e + 16 <= |t|
  {
    Matches(t, e, name) && forall k: nat :: k < e ==> !Matches(t, k, name)
  }

  /** The byte at `k` of a string that a zero follows. */
  function At(s: seq<Byte>, k: nat): Byte {
    if k < |s| then s[k] else 0
  }

  /** namecmp, that is strncmp, of two names. */
  method Namecmp(s: seq<Byte>, t: seq<Byte>) returns (r: int)
    ensures r == 0 <==> Name(s) == Name(t)
  {
    var k := 0;
    while k < DIRSIZ && At(s, k) != 0 && At(s, k) == At(t, k)
      invariant k <= DIRSIZ && k <= |s| && k <= |t| && s[..k] == t[..k] && 0 !in s[..k]
    {
      assert s[..k + 1] == s[..k] + [s[k]] && t[..k + 1] == t[..k] + [t[k]];
      k := k + 1;
    }
    Compared(s, t, k);
    r := if k == DIRSIZ then 0 else At(s, k) - At(t, k);
  }

  /** Where strncmp stops, the names are equal exactly if it has come to their end in both. */
  lemma Compared(s: seq<Byte>, t: seq<Byte>, k: nat)
    requires k <= 14 && k <= |s| && k <= |t| && s[..k] == t[..k] && 0 !in s[..k]
    requires k < 14 ==> At(s, k) == 0 || At(s, k) != At(t, k)
    ensures Name(s) == Name(t) <==> k == 14 || At(s, k) == At(t, k)
  {
    var m, n := Name(s), Name(t);
    if k == 14 || (At(s, k) == 0 && At(t, k) == 0) {
      NameIs(s, s[..k]);
      NameIs(t, t[..k]);
    } else {
      assert |m| > k ==> m[k] == s[k];
      assert |n| > k ==> n[k] == t[k];
    }
  }
}
