/**
 Page tables in physical memory (vm.c, kalloc.c, mmu.h).

 Every physical page is 512 words of 64 bits, whether it is a table, a user page or on
 the free list.  Physical page numbers stand for both physical addresses and the kernel's
 direct-mapped ones, which differ by a constant.  A node names a page of an address space
 by its place: `level` 4 is the root and 0 a user page, and `prefix` is the virtual page
 number with the 9 bits of each level below cut off.
 */
module PageTables {

  const ENTRIES: nat := 512
  const PGSIZE: nat := 4096
  const USERPAGES: nat := 0x8_0000_0000      // virtual pages below 2^47
  const PTE_P: nat := 1
  const PTE_W: nat := 2
  const PTE_U: nat := 4
  const PTE_PWT: nat := 8
  const PTE_PCD: nat := 16
  const PTE_PS: nat := 128

  type Page = p: seq<nat> | |p| == 512 witness seq(512, _ => 0)
  type Flags = f: nat | f < 4096 witness 0

  /** A page whose words are all `w`, as memset leaves it. */
  function Filled(w: nat): (p: Page)
    ensures forall i :: 0 <= i < 512 ==> p[i] == w
  {
    seq(512, _ => w)
  }

  const ZERO_PAGE: Page := Filled(0)

  datatype Node = Node(root: nat, level: nat, prefix: nat)

  function Child(n: Node, i: nat): Node
    requires n.level > 0
  {
    Node(n.root, n.level - 1, n.prefix * ENTRIES + i)
  }

  function Parent(n: Node): Node {
    Node(n.root, n.level + 1, n.prefix / ENTRIES)
  }

  lemma ParentOfChild(n: Node, i: nat)
    requires n.level > 0 && i < ENTRIES
    ensures Parent(Child(n, i)) == n && Child(n, i).prefix % ENTRIES == i
  {
  }

  /** The user half of a root has 256 entries; the other tables use all of theirs. */
  function Width(level: nat): nat {
    if level == 4 then ENTRIES / 2 else ENTRIES
  }

  // ---------- entries ----------

  predicate Present(e: nat) {
    e % 2 == 1
  }

  /** PTE_W and PTE_U, as bits of an entry. */
  predicate WriteBit(e: nat) {
    e / 2 % 2 == 1
  }

  predicate UserBit(e: nat) {
    e / 4 % 2 == 1
  }

  function PageOf(e: nat): nat {
    e / PGSIZE
  }

  function FlagsOf(e: nat): Flags {
    e % PGSIZE
  }

  lemma EntryFields(pfn: nat, f: Flags)
    ensures (pfn * 4096 + f) / 4096 == pfn && (pfn * 4096 + f) % 4096 == f
  {
  }

  lemma EntryBit(pfn: nat, f: Flags)
    ensures (pfn * 4096 + f) % 2 == f % 2
  {
    assert pfn * 4096 + f == 2 * (pfn * 2048) + f;
  }

  /** pa | perm | PTE_P for a page-aligned pa. */
  function Entry(pfn: nat, perm: Flags): (e: nat)
    ensures Present(e) && PageOf(e) == pfn
    ensures FlagsOf(e) == if perm % 2 == 1 then perm else perm + 1
  {
    var f: Flags := if perm % 2 == 1 then perm else perm + 1;
    EntryFields(pfn, f);
    EntryBit(pfn, f);
    pfn * PGSIZE + f
  }

  // ---------- the tree of an address space ----------

  /**
   An entry is present exactly when its child is part of the tree, and then it points at it; one that
   points at a table leaves all rights to the entries below.
   */
  ghost predicate EntryOk(mem: seq<Page>, at: map<Node, nat>, n: Node, i: nat)
    requires n in at && at[n] < |mem| && n.level > 0 && i < ENTRIES
  {
    var e := mem[at[n]][i];
    && (Present(e) <==> Child(n, i) in at)
    && (Present(e) ==> PageOf(e) == at[Child(n, i)])
    && (Present(e) && n.level > 1 ==> FlagsOf(e) == 7)
  }

  ghost predicate NodeOk(at: map<Node, nat>, role: map<nat, Node>, top: nat, n: Node)
    requires n in at
  {
    && n.level <= 4 && at[n] < top && at[n] in role && role[at[n]] == n
    && (n.level == 4 ==> n.prefix == 0 && at[n] == n.root)
    && (n.level == 3 ==> n.prefix < 256)
    && (n.level < 4 ==> Parent(n) in at)
  }

  /** The tree is a tree: levels, roots, parents, and no page in two places. */
  ghost predicate Shape(at: map<Node, nat>, role: map<nat, Node>, top: nat) {
    && (forall n :: n in at ==> NodeOk(at, role, top, n))
    && (forall p :: p in role ==> role[p] in at && at[role[p]] == p)
  }

  /** Every entry of every table agrees with the tree, apart from those of the tables in `broken`. */
  ghost predicate Entries(mem: seq<Page>, at: map<Node, nat>, broken: set<Node>) {
    forall n, i ::
      n in at && at[n] < |mem| && n.level > 0 && n !in broken && 0 <= i < Width(n.level) ==> EntryOk(mem, at, n, i)
  }

  lemma AttachShape(at: map<Node, nat>, role: map<nat, Node>, top: nat, n: Node, i: nat, c: nat)
    requires Shape(at, role, top) && n in at && 0 < n.level && i < Width(n.level)
    requires Child(n, i) !in at && c < top && c !in role
    ensures Shape(at[Child(n, i) := c], role[c := Child(n, i)], top)
  {
    var m := Child(n, i);
    ParentOfChild(n, i);
    hide Parent;
    assert NodeOk(at, role, top, n);
    var at', role' := at[m := c], role[c := m];
    forall k | k in at' ensures NodeOk(at', role', top, k) {
      assert k != m ==> NodeOk(at, role, top, k);
    }
  }

  /** A page joins the tree below `n`, at index `i`; as a table it comes zeroed. */
  lemma Attach(mem: seq<Page>, at: map<Node, nat>, role: map<nat, Node>, n: Node, i: nat, c: nat, perm: Flags,
               page: Page)
    requires Shape(at, role, |mem|) && Entries(mem, at, {})
    requires n in at && 0 < n.level && i < Width(n.level) && Child(n, i) !in at && c < |mem| && c !in role
    requires n.level > 1 ==> page == ZERO_PAGE && FlagsOf(Entry(c, perm)) == 7
    ensures var m := Child(n, i);
            && Shape(at[m := c], role[c := m], |mem|)
            && Entries(mem[c := page][at[n] := mem[at[n]][i := Entry(c, perm)]], at[m := c], {})
  {
    AttachShape(at, role, |mem|, n, i, c);
    var m := Child(n, i);
    var at' := at[m := c];
    var mem' := mem[c := page][at[n] := mem[at[n]][i := Entry(c, perm)]];
    assert NodeOk(at, role, |mem|, n);
    forall k, j | k in at' && at'[k] < |mem| && k.level > 0 && 0 <= j < Width(k.level)
      ensures EntryOk(mem', at', k, j) {
      if k == m {
        NewTable(mem', at, role, m, c, j);
      } else {
        assert NodeOk(at, role, |mem|, k) && EntryOk(mem, at, k, j);
        OldEntry(mem, mem', at, k, j, n, i, c, perm);
      }
    }
  }

  /** A new zeroed table has no children. */
  lemma NewTable(mem: seq<Page>, at: map<Node, nat>, role: map<nat, Node>, m: Node, c: nat, j: nat)
    requires Shape(at, role, |mem|) && m !in at && 0 < m.level < 4 && c < |mem| && j < ENTRIES && mem[c] == ZERO_PAGE
    ensures EntryOk(mem, at[m := c], m, j)
  {
    ParentOfChild(m, j);
    hide Parent;
    assert Child(m, j) !in at;
  }

  /** An old table changes only in the entry of the new child. */
  lemma OldEntry(mem: seq<Page>, mem': seq<Page>, at: map<Node, nat>, k: Node, j: nat,
                 n: Node, i: nat, c: nat, perm: Flags)
    requires |mem'| == |mem| && k in at && at[k] < |mem| && k.level > 0 && j < ENTRIES && EntryOk(mem, at, k, j)
    requires n in at && n.level > 0 && i < ENTRIES && at[n] < |mem| && Child(n, i) !in at && (at[k] == at[n] ==> k == n)
    requires mem'[at[k]] == if k == n then mem[at[n]][i := Entry(c, perm)] else mem[at[k]]
    requires n.level > 1 ==> FlagsOf(Entry(c, perm)) == 7
    ensures EntryOk(mem', at[Child(n, i) := c], k, j)
  {
    ParentOfChild(k, j);
    ParentOfChild(n, i);
    hide Parent, Present, PageOf, FlagsOf, Entry, Child;
    assert Child(k, j) == Child(n, i) ==> k == n && j == i;
  }

  lemma DetachShape(at: map<Node, nat>, role: map<nat, Node>, top: nat, m: Node)
    requires Shape(at, role, top) && m in at && m.level == 0
    ensures Shape(at - {m}, role - {at[m]}, top)
  {
    hide Parent;
    assert NodeOk(at, role, top, m);
    var at', role' := at - {m}, role - {at[m]};
    forall k | k in at' ensures NodeOk(at', role', top, k) {
      assert NodeOk(at, role, top, k);
      ParentLevel(k);
    }
  }

  lemma ParentLevel(m: Node)
    ensures Parent(m).level == m.level + 1
  {
  }

  /** A user page leaves the tree and its entry is cleared. */
  lemma Detach(mem: seq<Page>, at: map<Node, nat>, role: map<nat, Node>, n: Node, i: nat)
    requires Shape(at, role, |mem|) && Entries(mem, at, {})
    requires n in at && n.level == 1 && i < ENTRIES && Child(n, i) in at
    ensures var m := Child(n, i);
            && Shape(at - {m}, role - {at[m]}, |mem|)
            && Entries(mem[at[n] := mem[at[n]][i := 0]], at - {m}, {})
  {
    var m := Child(n, i);
    DetachShape(at, role, |mem|, m);
    ParentOfChild(n, i);
    var at', mem' := at - {m}, mem[at[n] := mem[at[n]][i := 0]];
    assert NodeOk(at, role, |mem|, n);
    forall k, j | k in at' && at'[k] < |mem| && k.level > 0 && 0 <= j < Width(k.level)
      ensures EntryOk(mem', at', k, j) {
      ParentOfChild(k, j);
      assert NodeOk(at, role, |mem|, k) && EntryOk(mem, at, k, j);
      hide Parent, Child;
      assert Child(k, j) == m ==> k == n && j == i;
    }
  }

  // ---------- translation ----------

  /** The virtual page's table at each level of the walk, and its index there. */
  function TableNode(root: nat, vpn: nat, level: nat): Node
    requires 1 <= level <= 4
  {
    if level == 1 then Node(root, 1, vpn / ENTRIES)
    else if level == 2 then Node(root, 2, vpn / ENTRIES / ENTRIES)
    else if level == 3 then Node(root, 3, vpn / ENTRIES / ENTRIES / ENTRIES)
    else Node(root, 4, 0)
  }

  /** PMX, PDPX, PDX and PTX of a virtual page number. */
  function Index(vpn: nat, level: nat): nat
    requires 1 <= level <= 4
  {
    if level == 1 then vpn % ENTRIES
    else if level == 2 then vpn / ENTRIES % ENTRIES
    else if level == 3 then vpn / ENTRIES / ENTRIES % ENTRIES
    else vpn / ENTRIES / ENTRIES / ENTRIES % ENTRIES
  }

  lemma WalkStep(root: nat, vpn: nat, level: nat)
    requires vpn < USERPAGES && 2 <= level <= 4
    ensures Child(TableNode(root, vpn, level), Index(vpn, level)) == TableNode(root, vpn, level - 1)
    ensures Index(vpn, level) < Width(level)
  {
  }

  lemma LeafStep(root: nat, vpn: nat)
    ensures Child(TableNode(root, vpn, 1), vpn % ENTRIES) == Node(root, 0, vpn)
    ensures Parent(Node(root, 0, vpn)) == TableNode(root, vpn, 1)
  {
  }

  /** What a virtual page of an address space translates to. */
  datatype Mapping = Unmapped | Mapped(frame: nat, flags: Flags, page: Page)

  /** The translation the hardware computes: four indexed loads from the root page. */
  function Translate(mem: seq<Page>, root: nat, vpn: nat): Mapping {
    var e := Descend(mem, root, vpn, 4);
    if Present(e) && PageOf(e) < |mem| then Mapped(PageOf(e), FlagsOf(e), mem[PageOf(e)]) else Unmapped
  }

  function Descend(mem: seq<Page>, p: nat, vpn: nat, level: nat): nat
    requires 1 <= level <= 4
    decreases level
  {
    if p >= |mem| then 0
    else
      var e := mem[p][Index(vpn, level)];
      if level == 1 then e else if Present(e) then Descend(mem, PageOf(e), vpn, level - 1) else 0
  }

  /** The same translation read off the tree. */
  ghost function Lookup(mem: seq<Page>, at: map<Node, nat>, root: nat, vpn: nat): Mapping {
    var leaf, t := Node(root, 0, vpn), TableNode(root, vpn, 1);
    if leaf in at && t in at && at[leaf] < |mem| && at[t] < |mem|
    then Mapped(at[leaf], FlagsOf(mem[at[t]][vpn % ENTRIES]), mem[at[leaf]])
    else Unmapped
  }

  lemma DescendOnce(mem: seq<Page>, at: map<Node, nat>, role: map<nat, Node>, root: nat, vpn: nat, level: nat)
    requires Shape(at, role, |mem|) && Entries(mem, at, {})
    requires vpn < USERPAGES && 2 <= level <= 4 && TableNode(root, vpn, level) in at
    ensures var t, t' := TableNode(root, vpn, level), TableNode(root, vpn, level - 1);
            && (t' in at ==> Descend(mem, at[t], vpn, level) == Descend(mem, at[t'], vpn, level - 1))
            && (t' !in at ==> Descend(mem, at[t], vpn, level) == 0)
  {
    var t := TableNode(root, vpn, level);
    WalkStep(root, vpn, level);
    assert NodeOk(at, role, |mem|, t) && EntryOk(mem, at, t, Index(vpn, level));
  }

  lemma Ancestors(at: map<Node, nat>, role: map<nat, Node>, top: nat, root: nat, vpn: nat, level: nat)
    requires Shape(at, role, top) && vpn < USERPAGES && 1 <= level <= 3
    ensures TableNode(root, vpn, level) in at ==> TableNode(root, vpn, level + 1) in at
  {
    if TableNode(root, vpn, level) in at {
      assert NodeOk(at, role, top, TableNode(root, vpn, level));
    }
  }

  /** The walk and the tree agree on every virtual page below 2^47. */
  lemma TranslateRefines(mem: seq<Page>, at: map<Node, nat>, role: map<nat, Node>, root: nat, vpn: nat)
    requires Shape(at, role, |mem|) && Entries(mem, at, {})
    requires vpn < USERPAGES && Node(root, 4, 0) in at
    ensures Translate(mem, root, vpn) == Lookup(mem, at, root, vpn)
  {
    hide Descend, Index;
    assert TableNode(root, vpn, 4) == Node(root, 4, 0);
    assert NodeOk(at, role, |mem|, Node(root, 4, 0));
    LeafStep(root, vpn);
    var t, leaf := TableNode(root, vpn, 1), Node(root, 0, vpn);
    if leaf in at {
      assert NodeOk(at, role, |mem|, leaf);
    }
    DescendOnce(mem, at, role, root, vpn, 4);
    if TableNode(root, vpn, 3) in at {
      DescendOnce(mem, at, role, root, vpn, 3);
      if TableNode(root, vpn, 2) in at {
        DescendOnce(mem, at, role, root, vpn, 2);
        if t in at {
          assert NodeOk(at, role, |mem|, t) && EntryOk(mem, at, t, vpn % ENTRIES);
          LastStep(mem, at[t], vpn);
        }
      } else if t in at {
        Ancestors(at, role, |mem|, root, vpn, 1);
      }
    } else if t in at {
      Ancestors(at, role, |mem|, root, vpn, 1);
      Ancestors(at, role, |mem|, root, vpn, 2);
    }
  }

  /**
   What the processor lets user code do with a virtual page: an access needs the user bit, and a write
   the write bit too, in the entries of all the levels.
   */
  predicate UserMay(mem: seq<Page>, p: nat, vpn: nat, level: nat, write: bool)
    requires 1 <= level <= 4
    decreases level
  {
    p < |mem| &&
    var e := mem[p][Index(vpn, level)];
    && Present(e) && UserBit(e) && (write ==> WriteBit(e))
    && (level > 1 ==> UserMay(mem, PageOf(e), vpn, level - 1, write))
  }

  /** The rights that the leaf's flags give. */
  predicate Allows(m: Mapping, write: bool) {
    m.Mapped? && UserBit(m.flags) && (write ==> WriteBit(m.flags))
  }

  lemma FlagBits(e: nat)
    ensures UserBit(e) == UserBit(FlagsOf(e)) && WriteBit(e) == WriteBit(FlagsOf(e))
  {
    var q, f := e / 4096, FlagsOf(e);
    assert e == 4096 * q + f;
    Quarters(1024 * q, f);
    Halves(2048 * q, f);
    EvenPart(512 * q, f / 4);
    EvenPart(1024 * q, f / 2);
  }

  lemma Quarters(a: nat, f: nat)
    ensures (4 * a + f) / 4 == a + f / 4
  {
  }

  lemma Halves(a: nat, f: nat)
    ensures (2 * a + f) / 2 == a + f / 2
  {
  }

  lemma EvenPart(a: nat, b: nat)
    ensures (2 * a + b) % 2 == b % 2
  {
  }

  lemma RightsOnce(mem: seq<Page>, at: map<Node, nat>, role: map<nat, Node>, root: nat, vpn: nat, level: nat,
                   write: bool)
    requires Shape(at, role, |mem|) && Entries(mem, at, {})
    requires vpn < USERPAGES && 2 <= level <= 4 && TableNode(root, vpn, level) in at
    ensures var t, t' := TableNode(root, vpn, level), TableNode(root, vpn, level - 1);
            && (t' in at ==> UserMay(mem, at[t], vpn, level, write) == UserMay(mem, at[t'], vpn, level - 1, write))
            && (t' !in at ==> !UserMay(mem, at[t], vpn, level, write))
  {
    var t := TableNode(root, vpn, level);
    WalkStep(root, vpn, level);
    assert NodeOk(at, role, |mem|, t) && EntryOk(mem, at, t, Index(vpn, level));
    FlagBits(mem[at[t]][Index(vpn, level)]);
  }

  lemma RightsLast(mem: seq<Page>, at: map<Node, nat>, role: map<nat, Node>, root: nat, vpn: nat, write: bool)
    requires Shape(at, role, |mem|) && Entries(mem, at, {}) && vpn < USERPAGES && TableNode(root, vpn, 1) in at
    ensures UserMay(mem, at[TableNode(root, vpn, 1)], vpn, 1, write) <==> Allows(Lookup(mem, at, root, vpn), write)
  {
    var t, leaf := TableNode(root, vpn, 1), Node(root, 0, vpn);
    LeafStep(root, vpn);
    assert NodeOk(at, role, |mem|, t) && EntryOk(mem, at, t, vpn % ENTRIES);
    if leaf in at {
      assert NodeOk(at, role, |mem|, leaf);
    }
    FlagBits(mem[at[t]][vpn % ENTRIES]);
  }

  /** The rights that the processor applies to a page are those of its leaf: no table on the way takes any. */
  lemma RightsRefine(mem: seq<Page>, at: map<Node, nat>, role: map<nat, Node>, root: nat, vpn: nat, write: bool)
    requires Shape(at, role, |mem|) && Entries(mem, at, {})
    requires vpn < USERPAGES && Node(root, 4, 0) in at
    ensures UserMay(mem, root, vpn, 4, write) <==> Allows(Lookup(mem, at, root, vpn), write)
  {
    hide UserMay, Index;
    assert TableNode(root, vpn, 4) == Node(root, 4, 0);
    assert NodeOk(at, role, |mem|, Node(root, 4, 0));
    LeafStep(root, vpn);
    var t := TableNode(root, vpn, 1);
    RightsOnce(mem, at, role, root, vpn, 4, write);
    if TableNode(root, vpn, 3) in at {
      RightsOnce(mem, at, role, root, vpn, 3, write);
      if TableNode(root, vpn, 2) in at {
        RightsOnce(mem, at, role, root, vpn, 2, write);
        if t in at {
          RightsLast(mem, at, role, root, vpn, write);
        }
      } else if t in at {
        Ancestors(at, role, |mem|, root, vpn, 1);
      }
    } else if t in at {
      Ancestors(at, role, |mem|, root, vpn, 2);
      Ancestors(at, role, |mem|, root, vpn, 1);
    }
  }

  /** The walk from table `p` ends at table `tab`, and user code may read and write through all its entries. */
  predicate Reaches(mem: seq<Page>, p: nat, vpn: nat, level: nat, tab: nat)
    requires 1 <= level <= 4
    decreases level
  {
    if level == 1 then
      p == tab
    else
      p < |mem| &&
      var e := mem[p][Index(vpn, level)];
      Present(e) && UserBit(e) && WriteBit(e) && Reaches(mem, PageOf(e), vpn, level - 1, tab)
  }

  lemma {:induction false} TableReached(mem: seq<Page>, at: map<Node, nat>, role: map<nat, Node>, root: nat, vpn: nat,
                                        level: nat)
    requires Shape(at, role, |mem|) && Entries(mem, at, {}) && vpn < USERPAGES && 1 <= level <= 4
    requires TableNode(root, vpn, 1) in at
    ensures TableNode(root, vpn, level) in at
    ensures Reaches(mem, at[TableNode(root, vpn, level)], vpn, level, at[TableNode(root, vpn, 1)])
  {
    if level > 1 {
      var t := TableNode(root, vpn, level);
      TableReached(mem, at, role, root, vpn, level - 1);
      Ancestors(at, role, |mem|, root, vpn, level - 1);
      WalkStep(root, vpn, level);
      assert NodeOk(at, role, |mem|, t) && EntryOk(mem, at, t, Index(vpn, level));
      FlagBits(mem[at[t]][Index(vpn, level)]);
    }
  }

  // ---------- pages of 1GB ----------

  predicate BigBit(e: nat) {
    e / 128 % 2 == 1
  }

  datatype Physical = Nowhere | At(pa: nat, user: bool, write: bool, cached: bool)

  /** Where the processor finds the address `va`, when the entry at the second level is a page of 1GB. */
  function BigPage(mem: seq<Page>, root: nat, va: nat): Physical {
    if root >= |mem| then
      Nowhere
    else
      var e := mem[root][va / 0x80_0000_0000 % 0x200];
      if !Present(e) || PageOf(e) >= |mem| then
        Nowhere
      else
        var f := mem[PageOf(e)][va / 0x4000_0000 % 0x200];
        if !Present(f) || !BigBit(f) then
          Nowhere
        else
          At(f / 0x4000_0000 * 0x4000_0000 + va % 0x4000_0000, UserBit(e) && UserBit(f), WriteBit(e) && WriteBit(f),
             f / 8 % 4 == 0)
  }

  /** The index at each level is nine bits of the virtual address. */
  lemma IndexBits(va: nat)
    ensures Index(va / 4096, 1) == va / 0x1000 % 0x200 && Index(va / 4096, 2) == va / 0x20_0000 % 0x200
    ensures Index(va / 4096, 3) == va / 0x4000_0000 % 0x200 && Index(va / 4096, 4) == va / 0x80_0000_0000 % 0x200
  {
    assert va / 4096 / 512 == va / 0x20_0000;
    assert va / 0x20_0000 / 512 == va / 0x4000_0000;
    assert va / 0x4000_0000 / 512 == va / 0x80_0000_0000;
  }

  lemma LastStep(mem: seq<Page>, p: nat, vpn: nat)
    requires p < |mem|
    ensures Descend(mem, p, vpn, 1) == mem[p][vpn % ENTRIES]
  {
  }

  /** No frame is mapped twice, in one address space or in two. */
  lemma FramesDistinct(mem: seq<Page>, at: map<Node, nat>, role: map<nat, Node>, root: nat, vpn: nat, root': nat,
                       vpn': nat)
    requires Shape(at, role, |mem|)
    requires Lookup(mem, at, root, vpn).Mapped? && Lookup(mem, at, root', vpn').Mapped?
    requires Lookup(mem, at, root, vpn).frame == Lookup(mem, at, root', vpn').frame
    ensures root == root' && vpn == vpn'
  {
    assert NodeOk(at, role, |mem|, Node(root, 0, vpn)) && NodeOk(at, role, |mem|, Node(root', 0, vpn'));
  }

  /** Two virtual pages share a page-table entry only if they are the same page of the same address space. */
  lemma WalkInjective(at: map<Node, nat>, role: map<nat, Node>, top: nat, root: nat, vpn: nat, root': nat, vpn': nat)
    requires Shape(at, role, top)
    requires TableNode(root, vpn, 1) in at && TableNode(root', vpn', 1) in at
    requires at[TableNode(root, vpn, 1)] == at[TableNode(root', vpn', 1)] && vpn % ENTRIES == vpn' % ENTRIES
    ensures root == root' && vpn == vpn'
  {
    assert NodeOk(at, role, top, TableNode(root, vpn, 1)) && NodeOk(at, role, top, TableNode(root', vpn', 1));
  }

  // ---------- what each change does to the translations ----------

  /** `mem'` has the pages of the tree that `mem` has. */
  ghost predicate SamePages(mem: seq<Page>, mem': seq<Page>, at: map<Node, nat>) {
    && |mem'| == |mem|
    && forall n :: n in at && at[n] < |mem| ==> mem'[at[n]] == mem[at[n]]
  }

  ghost predicate SameMaps(mem: seq<Page>, at: map<Node, nat>, mem': seq<Page>, at': map<Node, nat>) {
    forall r, v :: Lookup(mem', at', r, v) == Lookup(mem, at, r, v)
  }

  lemma PagesOutside(mem: seq<Page>, mem': seq<Page>, at: map<Node, nat>, broken: set<Node>)
    requires SamePages(mem, mem', at) && Entries(mem, at, broken)
    ensures Entries(mem', at, broken) && SameMaps(mem, at, mem', at)
  {
    forall n, i | n in at && at[n] < |mem'| && n.level > 0 && n !in broken && 0 <= i < Width(n.level)
      ensures EntryOk(mem', at, n, i)
    {
      assert EntryOk(mem, at, n, i);
    }
  }

  /** A new table translates nothing and disturbs nothing. */
  lemma TableMaps(mem: seq<Page>, at: map<Node, nat>, role: map<nat, Node>, n: Node, i: nat, c: nat, e: nat)
    requires Shape(at, role, |mem|) && n in at && 1 < n.level && i < Width(n.level)
    requires Child(n, i) !in at && c < |mem| && c !in role
    ensures SameMaps(mem, at, mem[c := ZERO_PAGE][at[n] := mem[at[n]][i := e]], at[Child(n, i) := c])
  {
    var m := Child(n, i);
    var mem', at' := mem[c := ZERO_PAGE][at[n] := mem[at[n]][i := e]], at[m := c];
    assert NodeOk(at, role, |mem|, n);
    forall r, v ensures Lookup(mem', at', r, v) == Lookup(mem, at, r, v) {
      LeafStep(r, v);
      hide Parent, Child;
      var leaf, t := Node(r, 0, v), TableNode(r, v, 1);
      assert m.level > 0 by { ChildLevel(n, i); }
      if leaf in at {
        assert NodeOk(at, role, |mem|, leaf);
        assert NodeOk(at, role, |mem|, t);
      }
    }
  }

  lemma ChildLevel(n: Node, i: nat)
    requires n.level > 0
    ensures Child(n, i).level == n.level - 1
  {
  }

  ghost predicate MapsExcept(mem: seq<Page>, at: map<Node, nat>, mem': seq<Page>, at': map<Node, nat>,
                             root: nat, from: nat, to: nat)
  {
    forall r, v: nat :: !(r == root && from <= v < to) ==> Lookup(mem', at', r, v) == Lookup(mem, at, r, v)
  }

  /** A page mapped at `vpn` gives that translation and no other. */
  lemma LeafMaps(mem: seq<Page>, at: map<Node, nat>, role: map<nat, Node>, root: nat, vpn: nat, c: nat, perm: Flags)
    requires Shape(at, role, |mem|) && TableNode(root, vpn, 1) in at
    requires Node(root, 0, vpn) !in at && c < |mem| && c !in role
    ensures var p := at[TableNode(root, vpn, 1)];
            var mem', at' := mem[p := mem[p][vpn % ENTRIES := Entry(c, perm)]], at[Node(root, 0, vpn) := c];
            && MapsExcept(mem, at, mem', at', root, vpn, vpn + 1)
            && Lookup(mem', at', root, vpn) == Mapped(c, FlagsOf(Entry(c, perm)), mem[c])
  {
    var t0, leaf0 := TableNode(root, vpn, 1), Node(root, 0, vpn);
    var mem', at' := mem[at[t0] := mem[at[t0]][vpn % ENTRIES := Entry(c, perm)]], at[leaf0 := c];
    assert NodeOk(at, role, |mem|, t0);
    forall r, v: nat | !(r == root && vpn <= v < vpn + 1) ensures Lookup(mem', at', r, v) == Lookup(mem, at, r, v) {
      LeafStep(r, v);
      LeafStep(root, vpn);
      hide Parent, Child;
      var leaf, t := Node(r, 0, v), TableNode(r, v, 1);
      if leaf in at {
        assert NodeOk(at, role, |mem|, leaf);
        assert NodeOk(at, role, |mem|, t);
      }
    }
  }

  /** A page unmapped at `vpn` loses that translation and no other. */
  lemma NoLeafMaps(mem: seq<Page>, at: map<Node, nat>, role: map<nat, Node>, root: nat, vpn: nat)
    requires Shape(at, role, |mem|) && Node(root, 0, vpn) in at && TableNode(root, vpn, 1) in at
    ensures var p := at[TableNode(root, vpn, 1)];
            var mem', at' := mem[p := mem[p][vpn % ENTRIES := 0]], at - {Node(root, 0, vpn)};
            && MapsExcept(mem, at, mem', at', root, vpn, vpn + 1)
            && Lookup(mem', at', root, vpn) == Unmapped
  {
    var t0, leaf0 := TableNode(root, vpn, 1), Node(root, 0, vpn);
    var mem', at' := mem[at[t0] := mem[at[t0]][vpn % ENTRIES := 0]], at - {leaf0};
    assert NodeOk(at, role, |mem|, t0);
    forall r, v: nat | !(r == root && vpn <= v < vpn + 1) ensures Lookup(mem', at', r, v) == Lookup(mem, at, r, v) {
      LeafStep(r, v);
      LeafStep(root, vpn);
      hide Parent, Child;
      var leaf, t := Node(r, 0, v), TableNode(r, v, 1);
      if leaf in at {
        assert NodeOk(at, role, |mem|, leaf);
        assert NodeOk(at, role, |mem|, t);
      }
    }
  }

  // ---------- whole subtrees ----------

  /** The node above `m` at a level. */
  function Up(m: Node, level: nat): (u: Node)
    ensures u.root == m.root && (m.level <= level ==> u.level == level)
    decreases level - m.level
  {
    if m.level >= level then m else Up(Parent(m), level)
  }

  ghost predicate Under(m: Node, n: Node) {
    m.level <= n.level && Up(m, n.level) == n
  }

  /** `m` lies in one of the first `i` subtrees of `n`. */
  ghost predicate UnderFirst(m: Node, n: Node, i: nat) {
    && m.level < n.level && m.root == n.root
    && n.prefix * ENTRIES <= Up(m, n.level - 1).prefix < n.prefix * ENTRIES + i
  }

  lemma {:induction false} UpNext(m: Node, level: nat)
    requires m.level <= level
    ensures Up(m, level + 1) == Parent(Up(m, level))
    decreases level - m.level
  {
    if m.level < level {
      UpNext(Parent(m), level);
    }
  }

  lemma UnderNext(m: Node, n: Node, i: nat)
    requires n.level > 0
    ensures UnderFirst(m, n, i + 1) <==> UnderFirst(m, n, i) || Under(m, Child(n, i))
  {
  }

  lemma UnderAll(m: Node, n: Node)
    requires 0 < n.level
    ensures Under(m, n) <==> m == n || UnderFirst(m, n, ENTRIES)
  {
    if m.level < n.level {
      UpNext(m, n.level - 1);
    }
  }

  lemma {:induction false} UpInTree(at: map<Node, nat>, role: map<nat, Node>, top: nat, m: Node, level: nat)
    requires Shape(at, role, top) && m in at && m.level <= level <= 4
    ensures Up(m, level) in at
    decreases level - m.level
  {
    if m.level < level {
      assert NodeOk(at, role, top, m);
      UpInTree(at, role, top, Parent(m), level);
    }
  }

  /** What lies under a node lies under the entries that are used. */
  lemma UnderWidth(at: map<Node, nat>, role: map<nat, Node>, top: nat, m: Node, n: Node)
    requires Shape(at, role, top) && m in at && n in at && n.level > 0
    ensures Under(m, n) <==> m == n || UnderFirst(m, n, Width(n.level))
  {
    assert NodeOk(at, role, top, n) && NodeOk(at, role, top, m);
    UnderAll(m, n);
    if m.level < 4 == n.level {
      UpInTree(at, role, top, m, 3);
      assert NodeOk(at, role, top, Up(m, 3));
    }
  }

  /** A root's address space is what lies under it. */
  lemma UnderRoot(at: map<Node, nat>, role: map<nat, Node>, top: nat, m: Node, n: Node)
    requires Shape(at, role, top) && m in at && n in at && n.level == 4
    ensures Under(m, n) <==> m.root == n.root
  {
    assert NodeOk(at, role, top, n) && NodeOk(at, role, top, m);
    UpInTree(at, role, top, m, 4);
    assert NodeOk(at, role, top, Up(m, 4));
  }

  ghost function Without(at: map<Node, nat>, n: Node, i: nat): map<Node, nat> {
    map m | m in at && !UnderFirst(m, n, i) :: at[m]
  }

  ghost function Pruned(at: map<Node, nat>, n: Node): map<Node, nat> {
    map m | m in at && !Under(m, n) :: at[m]
  }

  lemma PruneNext(at: map<Node, nat>, n: Node, i: nat)
    requires n.level > 0
    ensures Pruned(Without(at, n, i), Child(n, i)) == Without(at, n, i + 1)
  {
    forall m | m in at ensures UnderFirst(m, n, i + 1) <==> UnderFirst(m, n, i) || Under(m, Child(n, i)) {
      UnderNext(m, n, i);
    }
  }

  /** Where there is no child there is nothing under it. */
  lemma PruneNothing(at: map<Node, nat>, role: map<nat, Node>, top: nat, n: Node)
    requires Shape(at, role, top) && n !in at && n.level <= 4
    ensures Pruned(at, n) == at
  {
    forall m | m in at ensures !Under(m, n) {
      if m.level <= n.level {
        UpInTree(at, role, top, m, n.level);
      }
    }
  }

  /** A node without children leaves the tree. */
  lemma Drop(mem: seq<Page>, at: map<Node, nat>, role: map<nat, Node>, n: Node, broken: set<Node>)
    requires Shape(at, role, |mem|) && Entries(mem, at, broken) && n in at
    requires forall m :: m in at && m.level < 4 ==> Parent(m) != n
    requires n.level == 4 || Parent(n) in broken
    ensures Shape(at - {n}, role - {at[n]}, |mem|) && Entries(mem, at - {n}, broken)
  {
    hide Parent;
    var at', role' := at - {n}, role - {at[n]};
    assert NodeOk(at, role, |mem|, n);
    forall k | k in at' ensures NodeOk(at', role', |mem|, k) {
      assert NodeOk(at, role, |mem|, k);
    }
    forall k, j | k in at' && at'[k] < |mem| && k.level > 0 && k !in broken && 0 <= j < Width(k.level)
      ensures EntryOk(mem, at', k, j)
    {
      assert EntryOk(mem, at, k, j) && NodeOk(at, role, |mem|, k);
      ParentOfChild(k, j);
      assert Child(k, j) != n by { ChildLevel(k, j); }
    }
  }

  /** Once the subtrees of all entries have gone, a node has no children left, and without it its subtree has gone. */
  lemma AllGone(at0: map<Node, nat>, role0: map<nat, Node>, top: nat, n: Node, at: map<Node, nat>)
    requires Shape(at0, role0, top) && n in at0 && n.level > 0 && at == Without(at0, n, Width(n.level))
    ensures at - {n} == Pruned(at0, n)
    ensures forall m :: m in at && m.level < 4 ==> Parent(m) != n
  {
    hide Shape, UnderFirst, Up;
    forall m | m in at0 ensures Under(m, n) <==> m == n || UnderFirst(m, n, Width(n.level)) {
      UnderWidth(at0, role0, top, m, n);
    }
    forall m | m in at && m.level < 4 ensures Parent(m) != n {
      ParentUnder(m);
    }
  }

  lemma ParentUnder(m: Node)
    ensures Under(m, Parent(m)) && m != Parent(m)
  {
    UpNext(m, m.level);
  }

  /** Freeing the subtree of entry `i` leaves the later entries as they are. */
  lemma LaterEntries(mem: seq<Page>, at: map<Node, nat>, mem': seq<Page>, at': map<Node, nat>, n: Node, i: nat, j: nat)
    requires n in at && n.level > 0 && at[n] < |mem| == |mem'| && i < j < ENTRIES && EntryOk(mem, at, n, j)
    requires at' == Pruned(at, Child(n, i)) && mem'[at[n]] == mem[at[n]]
    ensures n in at' && at'[n] == at[n] && EntryOk(mem', at', n, j)
  {
    assert !Under(Child(n, j), Child(n, i));
  }

  lemma NoneGone(at: map<Node, nat>, n: Node)
    ensures Without(at, n, 0) == at
  {
  }

  lemma PrunedOnce(at: map<Node, nat>, role: map<nat, Node>, top: nat, n: Node)
    requires Shape(at, role, top) && n in at && n.level == 0
    ensures at - {n} == Pruned(at, n)
    ensures forall m :: m in at && m.level < 4 ==> Parent(m) != n
  {
    forall m | m in at ensures Under(m, n) <==> m == n {
    }
  }
}
