/**
 dirlookup (fs.c): the search for a name in a directory, entry by entry through readi; and
 what it finds in the root directory of an image that mkfs has made.
 */
module DirLookup {

  import opened Basics
  import opened Blocks
  import opened Dirents
  import opened FileState
  import opened FileContents
  import opened FileLog
  import opened Fs
  import Mkfs

  /** How the search ends: at an entry, without one, in a panic, or in a read that ends in one. */
  datatype Search = Entry(inum: nat, off: nat) | Absent | NotDir | ShortRead | Failed(why: Outcome)

  /** A read of a directory changes none of its bytes. */
  lemma ReadKept(sb: Super, s: State, s': State, i: nat, from: nat, to: nat)
    requires Owners(sb, s) && i < |s.itab| && to <= MAXFILE && s.itab[i].size <= MAXFILE * BSIZE
    requires ReadDone(sb, s, s', i, from, to)
    ensures |s'.itab| == |s.itab| && SameHead(s.itab[i], s'.itab[i]) && Contents(s', i) == Contents(s, i)
  {
    hide Addr, ByteAt, Synced, Owned, Slots, Need, Placed, OwnersKept;
    GotBytes(sb, s, s', i, from, to);
  }

  /** The blocks that hold the file's bytes below `x` are all there. */
  ghost predicate NoHole(s: State, i: nat, x: nat)
    requires i < |s.itab|
  {
    forall k: nat :: k < MAXFILE && k * BSIZE < x ==> Addr(s, i, k) != 0
  }

  /** An entry that begins below the end of the file lies in a block that does. */
  lemma HoleFree(s: State, i: nat, e: nat, size: nat)
    requires i < |s.itab| && 16 * e < size
    ensures NoHole(s, i, size) ==> NoHole(s, i, 16 * e) && NoHole(s, i, 16 * e + 16)
  {
    hide Addr;
    forall k: nat | k * BSIZE < 16 * e + 16 ensures k * BSIZE < size {
      assert k <= e / 32;
    }
  }

  /** What the search goes through: every whole entry before `e` is one that does not match. */
  ghost predicate Passed(t: seq<Byte>, e: nat, name: seq<Byte>) {
    16 * e <= |t| && forall k: nat :: k < e ==> !Matches(t, k, name)
  }

  /** The answer to a search in a directory with these bytes. */
  ghost predicate Answers(t: seq<Byte>, name: seq<Byte>, r: Search) {
    match r
    case Entry(inum, off) =>
      off % 16 == 0 && off + 16 <= |t| && FirstMatch(t, off / 16, name) && inum == Inum(t, off / 16)
    case Absent => |t| % 16 == 0 && Passed(t, |t| / 16, name)
    case ShortRead => |t| % 16 != 0 && Passed(t, |t| / 16, name)
    case _ => true
  }

  /** Reads an entry, or what there is of it. */
  method ReadEntry(fs: Fs, e: nat) returns (out: Outcome, n: int, de: seq<Byte>)
    requires fs.Valid() && 16 * e < fs.ip.size <= MAXFILE * BSIZE && fs.ip.kind % 0x1_0000 == 1
    modifies fs`disk, fs`ip, fs`lh, fs`itab, fs`owner
    ensures out == Done ==> fs.Valid() && SameHead(old(fs.ip), fs.ip)
    ensures out == Done ==> Contents(fs.Now(), fs.inum) == Contents(old(fs.Now()), fs.inum)
    ensures out == Done ==>
              var t := Contents(old(fs.Now()), fs.inum);
              |t| == old(fs.ip).size && if 16 * e + 16 <= |t| then n == 16 && de == t[16 * e..16 * e + 16] else n != 16
    ensures NoHole(old(fs.Now()), fs.inum, 16 * e + 16) ==>
              out == Done && fs.Now() == old(fs.Now()) && fs.ip == old(fs.ip) && fs.lh == old(fs.lh)
  {
    hide Addr, Contents, Bitmap, Owned, Slots, Need, Within, OneEach, Stuck, ReadDone, Covered, NoRepeats, End;
    ghost var s := fs.Now();
    ghost var len := Min(16, fs.ip.size - 16 * e);
    ContentsSize(s, fs.inum);
    EndBound(16 * e, len, len);
    if NoHole(s, fs.inum, 16 * e + 16) {
      NoNeed(fs.sb, s, fs.inum, e, len);
    }
    out, n, de := fs.Readi(16 * e, 16, NoDrivers());
    if out == Done {
      ReadKept(fs.sb, s, fs.Now(), fs.inum, 16 * e / BSIZE, End(16 * e, len));
    }
  }

  /** The next entry, read and compared; Absent here means that the search goes on. */
  method Compare(fs: Fs, e: nat, name: seq<Byte>) returns (r: Search)
    requires fs.Valid() && 16 * e < fs.ip.size <= MAXFILE * BSIZE && fs.ip.kind % 0x1_0000 == 1
    requires Passed(Contents(fs.Now(), fs.inum), e, name)
    modifies fs`disk, fs`ip, fs`lh, fs`itab, fs`owner
    ensures r.Entry? || r == Absent || r == ShortRead || r.Failed?
    ensures !r.Failed? ==> fs.Valid() && SameHead(old(fs.ip), fs.ip)
    ensures !r.Failed? ==> Contents(fs.Now(), fs.inum) == Contents(old(fs.Now()), fs.inum)
    ensures var t := Contents(old(fs.Now()), fs.inum);
            if r == Absent then Passed(t, e + 1, name) else Answers(t, name, r)
    ensures NoHole(old(fs.Now()), fs.inum, 16 * e + 16) ==>
              !r.Failed? && fs.Now() == old(fs.Now()) && fs.ip == old(fs.ip) && fs.lh == old(fs.lh)
  {
    hide Addr, Contents, Bitmap, Owned, Slots, Covered, NoRepeats, Name, NoHole, Matches;
    ghost var t := Contents(fs.Now(), fs.inum);
    var out, n, de := ReadEntry(fs, e);
    if out != Done {
      return Failed(out);
    }
    if n != 16 {
      return ShortRead;
    }
    r := Verdict(t, e, de, name);
  }

  /** What an entry that has been read says of the search. */
  method Verdict(ghost t: seq<Byte>, e: nat, de: seq<Byte>, name: seq<Byte>) returns (r: Search)
    requires 16 * e + 16 <= |t| && de == t[16 * e..16 * e + 16] && Passed(t, e, name)
    ensures if r == Absent then Passed(t, e + 1, name) else r.Entry? && Answers(t, name, r)
  {
    hide Name;
    var inum := (de[0] as int) + 0x100 * (de[1] as int);
    EntrySlice(t, e, de);
    if inum != 0 {
      var c := Namecmp(name, de[2..]);
      if c == 0 {
        return Entry(inum, 16 * e);
      }
    }
    r := Absent;
  }

  lemma EntrySlice(t: seq<Byte>, e: nat, de: seq<Byte>)
    requires 16 * e + 16 <= |t| && de == t[16 * e..16 * e + 16]
    ensures Inum(t, e) == (de[0] as int) + 0x100 * (de[1] as int) && de[2..] == Field(t, e)
  {
  }

  lemma NoNeed(sb: Super, s: State, i: nat, e: nat, len: nat)
    requires Owners(sb, s) && i < |s.itab| && 0 < len <= 16 && 16 * e + len <= MAXFILE * BSIZE
    requires NoHole(s, i, 16 * e + 16)
    ensures End(16 * e, len) <= MAXFILE && Need(s, i, 16 * e / BSIZE, End(16 * e, len)) == 0
  {
    hide Addr, Need, Owned, Slots;
    var k := 16 * e / BSIZE;
    assert k == e / 32 && (16 * e + len - 1) / 512 == k;
    assert End(16 * e, len) == k + 1;
    GotNothing(sb, s, i, k);
  }

  /** Looks a name up in the locked directory, as far as its size says. */
  method Dirlookup(fs: Fs, name: seq<Byte>) returns (r: Search)
    requires fs.Valid() && fs.ip.size <= MAXFILE * BSIZE
    modifies fs`disk, fs`ip, fs`lh, fs`itab, fs`owner
    ensures r == NotDir <==> old(fs.ip).kind % 0x1_0000 != 1
    ensures r == NotDir ==> fs.Now() == old(fs.Now()) && fs.ip == old(fs.ip) && fs.lh == old(fs.lh)
    ensures Answers(Contents(old(fs.Now()), fs.inum), name, r)
    ensures !r.Failed? ==> fs.Valid() && SameHead(old(fs.ip), fs.ip)
    ensures !r.Failed? ==> Contents(fs.Now(), fs.inum) == Contents(old(fs.Now()), fs.inum)
    ensures forall e: nat ::
              && old(fs.ip).kind % 0x1_0000 == 1 && 16 * e + 16 <= old(fs.ip).size
              && FirstMatch(Contents(old(fs.Now()), fs.inum), e, name)
              && NoHole(old(fs.Now()), fs.inum, 16 * e + 16) ==>
                r.Entry? && fs.Now() == old(fs.Now()) && fs.ip == old(fs.ip) && fs.lh == old(fs.lh)
    ensures NoHole(old(fs.Now()), fs.inum, old(fs.ip).size) ==>
              !r.Failed? && fs.Now() == old(fs.Now()) && fs.ip == old(fs.ip) && fs.lh == old(fs.lh)
  {
    hide Addr, Contents, Bitmap, Owned, Slots, Covered, NoRepeats, Name, Matches;
    if fs.ip.kind % 0x1_0000 != T_DIR {
      return NotDir;
    }
    ghost var s, t := fs.Now(), Contents(fs.Now(), fs.inum);
    ContentsSize(s, fs.inum);
    var e := 0;
    while 16 * e < fs.ip.size
      invariant fs.Valid() && fs.ip.size == |t| && fs.ip.kind % 0x1_0000 == 1 && SameHead(old(fs.ip), fs.ip)
      invariant Contents(fs.Now(), fs.inum) == t && Passed(t, e, name)
      invariant NoHole(s, fs.inum, 16 * e) ==> fs.Now() == s && fs.ip == old(fs.ip) && fs.lh == old(fs.lh)
      decreases |t| - 16 * e
    {
      HoleFree(s, fs.inum, e, |t|);
      r := Compare(fs, e, name);
      if r != Absent {
        return;
      }
      e := e + 1;
    }
    r := Absent;
  }

  // ---------- in the root directory of a new image ----------

  /** Entry `e` of the root directory is the first that is made from this name. */
  ghost predicate Named(files: seq<Mkfs.File>, e: nat, name: seq<Byte>) {
    && e < |files| + 2 && Name(Mkfs.EntryName(files, e)) == Name(name)
    && forall k: nat :: k < e ==> Name(Mkfs.EntryName(files, k)) != Name(name)
  }

  /** So each file is found by its name where the names differ, and the directory itself by its two. */
  lemma OwnNames(files: seq<Mkfs.File>, j: nat)
    ensures Named(files, 0, [46]) && Named(files, 1, [46, 46])
    ensures j < |files| && (forall k: nat :: k < j + 2 ==>
                              Name(Mkfs.EntryName(files, k)) != Name(Mkfs.Stripped(files[j].name))) ==>
              Named(files, j + 2, Mkfs.Stripped(files[j].name))
  {
    NameIs([46], [46]);
    NameIs([46, 46], [46, 46]);
    assert Mkfs.EntryName(files, 0) == [46] && Mkfs.EntryName(files, 1) == [46, 46];
  }

  /** The root directory has room for its entries, in blocks that are there. */
  lemma RootBlocks(s: State, files: seq<Mkfs.File>, e: nat)
    requires |files| + 2 <= Mkfs.NINODES == |s.itab| && Mkfs.RootIs(s, files) && e < |files| + 2
    ensures 16 * e + 16 <= s.itab[Mkfs.ROOTINO].size <= MAXFILE * BSIZE && NoHole(s, Mkfs.ROOTINO, 16 * e + 16)
    ensures (|files| + 2) % 32 != 0 ==> NoHole(s, Mkfs.ROOTINO, s.itab[Mkfs.ROOTINO].size)
  {
    hide Addr, ByteAt, Mkfs.Directory;
    var len := 16 * (|files| + 2);
    if (|files| + 2) % 32 != 0 {
      forall k: nat | k * BSIZE < (len / BSIZE + 1) * BSIZE ensures k * BSIZE < len {
        assert k <= len / BSIZE && len % BSIZE != 0;
      }
    }
  }

  /** The first entry made from the name is the one that dirlookup finds. */
  lemma LookUpFinds(s: State, files: seq<Mkfs.File>, name: seq<Byte>, r: Search)
    requires |files| + 2 <= Mkfs.NINODES == |s.itab| && Mkfs.RootIs(s, files)
    requires s.itab[Mkfs.ROOTINO].size <= MAXFILE * BSIZE && Answers(Contents(s, Mkfs.ROOTINO), name, r)
    ensures forall e: nat :: Named(files, e, name) && r.Entry? ==> r == Entry(Mkfs.EntryInum(e), 16 * e)
    ensures (forall e: nat :: e < |files| + 2 ==> Name(Mkfs.EntryName(files, e)) != Name(name)) ==> !r.Entry?
  {
    hide Mkfs.RootIs, Contents, Name, Mkfs.EntryName, FirstMatch;
    ContentsSize(s, Mkfs.ROOTINO);
    if r.Entry? {
      var f := r.off / 16;
      Mkfs.RootFinds(s, files, name, f);
      Mkfs.RootContents(s, files, f);
      forall e: nat | Named(files, e, name) ensures r == Entry(Mkfs.EntryInum(e), 16 * e) {
        assert e == f;
      }
    }
  }

  /** The image of `files`, mounted, with the root directory locked. */
  method Mount(files: seq<Mkfs.File>) returns (fs: Fs)
    requires Mkfs.Fits(files)
    ensures fresh(fs) && fs.Valid() && fs.sb == Mkfs.LAYOUT && fs.inum == Mkfs.ROOTINO && fs.lh == []
    ensures |files| + 2 <= Mkfs.NINODES == |fs.itab| && Mkfs.RootIs(fs.Now(), files)
    ensures forall j: nat :: j < |files| ==> Mkfs.IsFile(fs.Now(), j + 2, Mkfs.Flat(files[j].pieces))
  {
    hide Bitmap, Owned, Slots, Synced, Addr, NoRepeats, Covered, TakenBy, Mkfs.RootIs, Mkfs.LogZero, Mkfs.SuperOk,
         Mkfs.Listed, Mkfs.Flat, Mkfs.Total, Mkfs.IsFile;
    var img := new Mkfs.Image();
    var built := img.Build(files);
    fs := new Fs(Mkfs.LAYOUT, Mkfs.LOG, img.disk, img.itab, img.owner);
    NoneLogged();
    var ok := fs.Ilock(Mkfs.ROOTINO);
  }

  /**
   On the image of `files` the lookup of a name in the root directory finds the inode of the first entry
   made from it, be that "." or ".." or a file, and changes nothing; that inode is the file.  Without such an
   entry it finds none, and changes nothing either unless the directory ends in a hole.
   */
  method LookUp(files: seq<Mkfs.File>, name: seq<Byte>) returns (fs: Fs, r: Search, ghost image: State)
    requires Mkfs.Fits(files)
    ensures fresh(fs) && Inv(Mkfs.LAYOUT, image)
    ensures |files| + 2 <= Mkfs.NINODES == |image.itab| && Mkfs.RootIs(image, files)
    ensures forall e: nat :: Named(files, e, name) ==>
              && r == Entry(if e < 2 then 1 else e, 16 * e) && fs.Now() == image
              && (e >= 2 ==> Mkfs.IsFile(fs.Now(), e, Mkfs.Flat(files[e - 2].pieces)))
    ensures (forall e: nat :: e < |files| + 2 ==> Name(Mkfs.EntryName(files, e)) != Name(name)) ==>
              && (r == Absent || r.Failed?)
              && ((|files| + 2) % 32 != 0 ==> r == Absent && fs.Now() == image)
  {
    hide Bitmap, Owned, Slots, Addr, Contents, Mkfs.RootIs, Mkfs.Fits, NoRepeats, Covered, Name, Mkfs.EntryName,
         FirstMatch, NoHole, Mkfs.IsFile, Mkfs.Flat;
    fs := Mount(files);
    image := fs.Now();
    RootBlocks(image, files, 0);
    r := Dirlookup(fs, name);
    assert r != NotDir && r != ShortRead by { RootType(image, files); }
    LookUpFinds(image, files, name, r);
    forall e: nat | Named(files, e, name)
      ensures r == Entry(if e < 2 then 1 else e, 16 * e) && fs.Now() == image
      ensures e >= 2 ==> Mkfs.IsFile(fs.Now(), e, Mkfs.Flat(files[e - 2].pieces))
    {
      RootBlocks(image, files, e);
      Mkfs.RootFinds(image, files, name, e);
      assert e >= 2 ==> Mkfs.IsFile(image, (e - 2) + 2, Mkfs.Flat(files[e - 2].pieces));
    }
  }

  /** The root directory is a directory of whole entries. */
  lemma RootType(s: State, files: seq<Mkfs.File>)
    requires |files| + 2 <= Mkfs.NINODES == |s.itab| && Mkfs.RootIs(s, files)
    ensures s.itab[Mkfs.ROOTINO].kind % 0x1_0000 == 1 && s.itab[Mkfs.ROOTINO].size % 16 == 0
    ensures s.itab[Mkfs.ROOTINO].size <= MAXFILE * BSIZE && |Contents(s, Mkfs.ROOTINO)| == s.itab[Mkfs.ROOTINO].size
  {
    hide Mkfs.Directory, ByteAt, Addr;
    assert 16 * (|files| + 2) / BSIZE + 1 <= 7;
    ContentsSize(s, Mkfs.ROOTINO);
  }
}
