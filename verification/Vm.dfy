/**
 The page allocator and the operations on address spaces (kalloc.c, vm.c).

 The allocator's list of free pages runs through the pages themselves.  Besides the
 free pages and the pages of the trees there are the pages the kernel holds for other
 uses, among them the table of kernel mappings that every root shares.
 */
module Vm {

  import opened Basics
  import opened PageTables
  import opened PageCount

  const JUNK: Page := Filled(0x0101_0101_0101_0101)
  const KERNBASE: nat := 0xFFFF_8000_0000_0000
  const KERNEL_ENTRY: nat := 256

  /** How an operation ends: normally, or in one of the kernel's panics. */
  datatype Outcome = Done | OutOfMemory | Remap | NotPresent

  /** PGROUNDUP, in pages. */
  function RoundUp(sz: nat): (n: nat)
    ensures n * 4096 >= sz && (n > 0 ==> (n - 1) * 4096 < sz)
  {
    (sz + PGSIZE - 1) / PGSIZE
  }

  // ---------- the free list ----------

  /** What the first word of a free page holds: the page after it on the list. */
  ghost predicate Linked(mem: seq<Page>, head: nat, fl: seq<nat>) {
    && head == (if fl == [] then 0 else fl[0])
    && (forall i {:trigger fl[i]} :: 0 <= i < |fl| ==>
          fl[i] < |mem| && mem[fl[i]][0] == if i + 1 < |fl| then fl[i + 1] else 0)
    && (forall i, j :: 0 <= i < j < |fl| ==> fl[i] != fl[j])
  }

  /** Every page from `lo` to `top` is free, part of a tree, or held for another use, and only one of these. */
  ghost predicate Held(lo: nat, top: nat, fl: seq<nat>, role: map<nat, Node>, other: set<nat>) {
    && (forall p :: lo <= p < top ==> p in fl || p in role || p in other)
    && (forall p :: p in fl ==> lo <= p < top && p !in role && p !in other)
    && (forall p :: p in role ==> lo <= p < top && p !in other)
    && (forall p :: p in other ==> lo <= p < top)
  }

  lemma ListHead(lo: nat, mem: seq<Page>, head: nat, fl: seq<nat>, role: map<nat, Node>, other: set<nat>)
    requires 0 < lo && Linked(mem, head, fl) && Held(lo, |mem|, fl, role, other)
    ensures head == 0 <==> fl == []
    ensures fl != [] ==> head < |mem|
  {
    if fl != [] {
      assert fl[0] in fl;
    }
  }

  lemma PopFree(mem: seq<Page>, head: nat, fl: seq<nat>)
    requires Linked(mem, head, fl) && fl != []
    ensures Linked(mem, mem[head][0], fl[1..]) && head == fl[0] && head !in fl[1..]
  {
    var rest := fl[1..];
    forall i {:trigger rest[i]} | 0 <= i < |rest|
      ensures rest[i] < |mem| && mem[rest[i]][0] == if i + 1 < |rest| then rest[i + 1] else 0
    {
      assert rest[i] == fl[i + 1];
    }
    assert |rest| > 0 ==> rest[0] == fl[1];
    assert mem[fl[0]][0] == if 1 < |fl| then fl[1] else 0;
  }

  lemma PushFree(mem: seq<Page>, head: nat, fl: seq<nat>, p: nat)
    requires Linked(mem, head, fl) && p !in fl && p < |mem|
    ensures Linked(mem[p := JUNK[0 := head]], p, [p] + fl)
  {
    var mem', fl' := mem[p := JUNK[0 := head]], [p] + fl;
    forall i {:trigger fl'[i]} | 0 <= i < |fl'|
      ensures fl'[i] < |mem'| && mem'[fl'[i]][0] == if i + 1 < |fl'| then fl'[i + 1] else 0
    {
      if i > 0 {
        assert fl'[i] == fl[i - 1];
      }
    }
  }

  /** Writing to pages that are not free leaves the list as it is. */
  lemma FreeUntouched(mem: seq<Page>, mem': seq<Page>, head: nat, fl: seq<nat>)
    requires Linked(mem, head, fl) && |mem'| == |mem|
    requires forall p :: p in fl && p < |mem| ==> mem'[p] == mem[p]
    ensures Linked(mem', head, fl)
  {
    forall i {:trigger fl[i]} | 0 <= i < |fl|
      ensures fl[i] < |mem'| && mem'[fl[i]][0] == if i + 1 < |fl| then fl[i + 1] else 0
    {
      assert fl[i] in fl;
    }
  }

  lemma HeldTaken(lo: nat, top: nat, fl: seq<nat>, role: map<nat, Node>, other: set<nat>)
    requires Held(lo, top, fl, role, other) && fl != [] && fl[0] !in fl[1..]
    ensures Held(lo, top, fl[1..], role, other + {fl[0]}) && fl[0] !in other && fl[0] !in role && lo <= fl[0] < top
  {
    assert fl == [fl[0]] + fl[1..];
    assert fl[0] in fl;
    forall p | p in fl[1..] ensures p in fl {
    }
  }

  lemma HeldGiven(lo: nat, top: nat, fl: seq<nat>, role: map<nat, Node>, other: set<nat>, p: nat)
    requires Held(lo, top, fl, role, other) && p in other
    ensures Held(lo, top, [p] + fl, role, other - {p}) && p !in fl && p !in role && lo <= p < top
  {
    forall q | q in [p] + fl ensures q == p || q in fl {
    }
    forall q | q in fl ensures q in [p] + fl {
    }
  }

  lemma HeldInTree(lo: nat, top: nat, fl: seq<nat>, role: map<nat, Node>, other: set<nat>, c: nat, n: Node)
    requires Held(lo, top, fl, role, other) && c in other
    ensures Held(lo, top, fl, role[c := n], other - {c})
  {
  }

  lemma HeldOutside(lo: nat, top: nat, fl: seq<nat>, role: map<nat, Node>, other: set<nat>, c: nat)
    requires Held(lo, top, fl, role, other) && c in role
    ensures Held(lo, top, fl, role - {c}, other + {c})
  {
  }

  // ---------- the whole memory ----------

  /** The state of memory, with the ghost account of who holds what. */
  datatype Memory = Memory(mem: seq<Page>, at: map<Node, nat>, role: map<nat, Node>, fl: seq<nat>, other: set<nat>)

  /** Two pages of 1GB: the first of physical memory, and the fourth, where the devices are, uncached. */
  const KERNEL_PAGE: Page := ZERO_PAGE[0 := 0x83][3 := 0xC000_009B]

  /** Every root's 257th entry leads to the shared kernel table, which is in no tree. */
  ghost predicate Kernel(s: Memory, kpdpt: nat) {
    && kpdpt in s.other && kpdpt < |s.mem| && s.mem[kpdpt] == KERNEL_PAGE
    && forall n :: n in s.at && n.level == 4 && s.at[n] < |s.mem| ==>
         s.mem[s.at[n]][KERNEL_ENTRY] == Entry(kpdpt, PTE_W)
  }

  ghost predicate Trees(s: Memory, kpdpt: nat) {
    && Shape(s.at, s.role, |s.mem|)
    && Entries(s.mem, s.at, {})
    && Kernel(s, kpdpt)
  }

  /** From `s` to `s'` the trees have gained exactly the nodes `ns`, apart from those they had. */
  ghost predicate AtGrew(s: Memory, s': Memory, ns: set<Node>) {
    s'.at.Keys == s.at.Keys + ns
  }

  lemma AtGrewTwice(s0: Memory, s1: Memory, s2: Memory, a: set<Node>, b: set<Node>)
    requires AtGrew(s0, s1, a) && AtGrew(s1, s2, b)
    ensures AtGrew(s0, s2, a + b)
  {
  }

  lemma RangeGrew(s0: Memory, s1: Memory, s2: Memory, root: nat, from: nat, mid: nat)
    requires from <= mid && AtGrew(s0, s1, Nodes(root, from, mid)) && AtGrew(s1, s2, Nodes(root, mid, mid + 1))
    ensures AtGrew(s0, s2, Nodes(root, from, mid + 1))
  {
    hide Nodes;
    NodesNext(root, from, mid);
    AtGrewTwice(s0, s1, s2, Nodes(root, from, mid), Nodes(root, mid, mid + 1));
  }

  /** From `s` to `s'` tables may have been added to the tree of `root`, and no translation has changed. */
  ghost predicate Grew(s: Memory, s': Memory, root: nat) {
    && |s'.mem| == |s.mem| && s'.other == s.other
    && SameMaps(s.mem, s.at, s'.mem, s'.at)
    && (forall n :: n in s.at ==> n in s'.at && s'.at[n] == s.at[n])
    && (forall n :: n in s'.at ==> n in s.at || (0 < n.level < 4 && n.root == root))
    && (forall p :: p in s.other && p < |s.mem| ==> s'.mem[p] == s.mem[p])
    && (forall p :: p in s'.fl ==> p in s.fl)
  }


  lemma TableLevel(root: nat, vpn: nat, level: nat)
    requires 1 <= level <= 4
    ensures TableNode(root, vpn, level).level == level && TableNode(root, vpn, level).root == root
  {
  }

  lemma GrewFacts(s: Memory, s': Memory, root: nat)
    requires Grew(s, s', root)
    ensures |s'.mem| == |s.mem| && s'.other == s.other
  {
    hide SameMaps;
  }

  lemma GrewTwice(s0: Memory, s1: Memory, s2: Memory, root: nat)
    requires Grew(s0, s1, root) && Grew(s1, s2, root)
    ensures Grew(s0, s2, root)
  {
    forall r, v ensures Lookup(s2.mem, s2.at, r, v) == Lookup(s0.mem, s0.at, r, v) {
      assert Lookup(s1.mem, s1.at, r, v) == Lookup(s0.mem, s0.at, r, v);
    }
  }

  /** From `s` to `s'` page `c` has become the zeroed table at index `i` of node `n`. */
  ghost predicate TableIn(s: Memory, s': Memory, n: Node, i: nat, c: nat)
    requires n in s.at && s.at[n] < |s.mem| && c < |s.mem| && n.level > 0 && i < ENTRIES
  {
    && s'.mem == s.mem[c := ZERO_PAGE][s.at[n] := s.mem[s.at[n]][i := Entry(c, PTE_W + PTE_U)]]
    && s'.at == s.at[Child(n, i) := c] && s'.role == s.role[c := Child(n, i)]
    && s'.fl == s.fl && s'.other == s.other - {c}
  }

  /** From `s` to `s'` the allocator has handed out page `c`. */
  ghost predicate Taken(s: Memory, s': Memory, c: nat) {
    && s'.mem == s.mem && s'.at == s.at && s'.role == s.role
    && s.fl != [] && c == s.fl[0] && s'.fl == s.fl[1..] && s'.other == s.other + {c}
    && c < |s.mem| && c !in s.other && c !in s.role && c !in s'.fl
  }

  lemma TableAdded(s0: Memory, s: Memory, s': Memory, n: Node, i: nat, c: nat, head: nat, lo: nat, kpdpt: nat)
    requires Trees(s0, kpdpt) && n in s0.at && 1 < n.level && i < Width(n.level) && Child(n, i) !in s0.at
    requires Taken(s0, s, c) && s0.at[n] < |s.mem| && TableIn(s, s', n, i, c)
    requires Linked(s.mem, head, s.fl) && Held(lo, |s.mem|, s.fl, s.role, s.other)
    ensures Trees(s', kpdpt) && Grew(s0, s', n.root)
    ensures Linked(s'.mem, head, s'.fl) && Held(lo, |s'.mem|, s'.fl, s'.role, s'.other)
  {
    hide Linked, Held, Shape, Entries, Kernel, Lookup, Entry;
    Attach(s0.mem, s0.at, s0.role, n, i, c, PTE_W + PTE_U, ZERO_PAGE);
    TableMaps(s0.mem, s0.at, s0.role, n, i, c, Entry(c, PTE_W + PTE_U));
    HeldInTree(lo, |s.mem|, s.fl, s.role, s.other, c, Child(n, i));
    TreePage(s, n, lo);
    TableAddedKernel(s0, s, s', n, i, c, kpdpt);
    TableAddedFree(s0, s, s', n, i, c, head, lo);
    assert s'.other == s0.other;
  }

  lemma TableAddedFree(s0: Memory, s: Memory, s': Memory, n: Node, i: nat, c: nat, head: nat, lo: nat)
    requires n in s0.at && 1 < n.level && i < ENTRIES && s0.at[n] < |s0.mem| && s0.at[n] in s0.role
    requires Taken(s0, s, c) && TableIn(s, s', n, i, c)
    requires Linked(s.mem, head, s.fl) && Held(lo, |s.mem|, s.fl, s.role, s.other)
    ensures Linked(s'.mem, head, s'.fl)
    ensures forall p :: p in s'.fl ==> p in s0.fl
    ensures forall p :: p in s0.other && p < |s0.mem| ==> s'.mem[p] == s0.mem[p]
  {
    hide Linked, Entry;
    FreeUntouched(s.mem, s'.mem, head, s.fl);
  }

  lemma TableAddedKernel(s0: Memory, s: Memory, s': Memory, n: Node, i: nat, c: nat, kpdpt: nat)
    requires Shape(s0.at, s0.role, |s0.mem|) && Kernel(s0, kpdpt)
    requires n in s0.at && 1 < n.level && i < Width(n.level) && s0.at[n] < |s0.mem| && s0.at[n] !in s0.other
    requires Taken(s0, s, c) && TableIn(s, s', n, i, c)
    ensures Kernel(s', kpdpt) && s0.at[n] in s0.role && n.level <= 4
  {
    hide Entry, Shape;
    TableInRole(s0, n);
    assert s'.mem[kpdpt] == s0.mem[kpdpt];
    forall k | k in s'.at && k.level == 4 && s'.at[k] < |s'.mem|
      ensures s'.mem[s'.at[k]][KERNEL_ENTRY] == Entry(kpdpt, PTE_W)
    {
      TableInRole(s0, k);
    }
  }

  lemma TableInRole(s: Memory, n: Node)
    requires Shape(s.at, s.role, |s.mem|) && n in s.at
    ensures n.level <= 4 && s.at[n] in s.role && s.role[s.at[n]] == n
  {
    assert NodeOk(s.at, s.role, |s.mem|, n);
  }

  // ---------- counting pages ----------

  lemma {:induction false} Inverses(at: map<Node, nat>, role: map<nat, Node>)
    requires forall n :: n in at ==> at[n] in role && role[at[n]] == n
    requires forall p :: p in role ==> role[p] in at && at[role[p]] == p
    ensures |at| == |role|
    decreases |at|
  {
    if at == map[] {
      assert role.Keys == {};
    } else {
      assert at.Keys != {};
      var n :| n in at;
      var p := at[n];
      assert (at - {n}).Keys == at.Keys - {n} && (role - {p}).Keys == role.Keys - {p};
      Inverses(at - {n}, role - {p});
    }
  }

  ghost function Elements(fl: seq<nat>): (ps: set<nat>)
    ensures forall p :: p in ps <==> p in fl
  {
    set p: nat | p in fl
  }

  lemma {:induction false} ListSize(fl: seq<nat>)
    requires forall i, j :: 0 <= i < j < |fl| ==> fl[i] != fl[j]
    ensures |Elements(fl)| == |fl|
  {
    if fl != [] {
      var rest, last := fl[..|fl| - 1], fl[|fl| - 1];
      assert fl == rest + [last];
      ListSize(rest);
      assert Elements(fl) == Elements(rest) + {last};
    }
  }

  /** Every page is counted once: free pages, pages of the trees, and pages the kernel holds. */
  lemma Census(lo: nat, mem: seq<Page>, head: nat, fl: seq<nat>, at: map<Node, nat>, role: map<nat, Node>,
               other: set<nat>)
    requires lo <= |mem| && Linked(mem, head, fl) && Held(lo, |mem|, fl, role, other) && Shape(at, role, |mem|)
    ensures |fl| + |at| + |other| == |mem| - lo
  {
    hide Linked, Shape;
    TreeSize(at, role, |mem|);
    assert forall i, j :: 0 <= i < j < |fl| ==> fl[i] != fl[j] by { NoneTwice(mem, head, fl); }
    ListSize(fl);
    HeldParts(lo, |mem|, Elements(fl), role.Keys, fl, role, other);
  }

  lemma NoneTwice(mem: seq<Page>, head: nat, fl: seq<nat>)
    requires Linked(mem, head, fl)
    ensures forall i, j :: 0 <= i < j < |fl| ==> fl[i] != fl[j]
  {
  }

  lemma TreeSize(at: map<Node, nat>, role: map<nat, Node>, top: nat)
    requires Shape(at, role, top)
    ensures |at| == |role| == |role.Keys|
  {
    hide Parent;
    forall n | n in at ensures at[n] in role && role[at[n]] == n {
      assert NodeOk(at, role, top, n);
    }
    Inverses(at, role);
  }

  lemma HeldParts(lo: nat, top: nat, free: set<nat>, tree: set<nat>, fl: seq<nat>, role: map<nat, Node>,
                  other: set<nat>)
    requires lo <= top && Held(lo, top, fl, role, other)
    requires (forall p :: p in free <==> p in fl) && tree == role.Keys
    ensures |free| + |tree| + |other| == top - lo
  {
    assert free !! tree && (free + tree) !! other;
    var all := Range(lo, top);
    forall p ensures p in free + tree + other <==> p in all {
    }
    assert free + tree + other == all;
  }

  ghost predicate Counted(s: Memory, lo: nat) {
    |s.fl| + |s.at| + |s.other| + lo == |s.mem|
  }

  /** How many tables the pages `from..to` still need. */
  ghost function NewTables(s: Memory, root: nat, from: nat, to: nat): nat {
    |Tables(root, from, to) - s.at.Keys|
  }

  /** How many pages they need with their tables. */
  ghost function NewNodes(s: Memory, root: nat, from: nat, to: nat): nat {
    |Nodes(root, from, to) - s.at.Keys|
  }

  /** The nodes that the trees gain are the pages that the free list loses. */
  lemma Paid(s0: Memory, s1: Memory, ns: set<Node>, lo: nat)
    requires Counted(s0, lo) && Counted(s1, lo) && |s1.mem| == |s0.mem| && |s1.other| == |s0.other|
    requires AtGrew(s0, s1, ns)
    ensures |s1.fl| + |ns - s0.at.Keys| == |s0.fl|
  {
    Added(s0.at.Keys, ns);
    assert |s0.at| == |s0.at.Keys| && |s1.at| == |s1.at.Keys|;
  }

  lemma NewTablesNext(s0: Memory, s1: Memory, root: nat, from: nat, v: nat)
    requires from <= v && AtGrew(s0, s1, Nodes(root, from, v))
    ensures NewTables(s0, root, from, v + 1) == NewTables(s0, root, from, v) + NewTables(s1, root, v, v + 1)
  {
    hide Tables, Nodes, Across;
    var keys, a, b, l := s0.at.Keys, Tables(root, from, v), Tables(root, v, v + 1), Across(root, 0, from, v);
    NodesNext(root, from, v);
    AddedTwice(keys, a, b);
    LeavesApart(root, from, v, v, v + 1);
    LeavesApart(root, from, v, from, v);
    AddedApart(keys, a, b, l);
  }

  lemma NewNodesNext(s0: Memory, s1: Memory, root: nat, from: nat, v: nat)
    requires from <= v && AtGrew(s0, s1, Nodes(root, from, v))
    ensures NewNodes(s0, root, from, v + 1) == NewNodes(s0, root, from, v) + NewNodes(s1, root, v, v + 1)
  {
    hide Tables, Nodes;
    NodesNext(root, from, v);
    AddedTwice(s0.at.Keys, Nodes(root, from, v), Nodes(root, v, v + 1));
  }

  lemma NewOne(s: Memory, root: nat, v: nat)
    requires Node(root, 0, v) !in s.at
    ensures NewNodes(s, root, v, v + 1) == NewTables(s, root, v, v + 1) + 1
  {
    hide Tables, Nodes;
    NodesOne(root, v);
    AddedOne(s.at.Keys, Tables(root, v, v + 1), Node(root, 0, v));
  }

  lemma NewMore(s: Memory, root: nat, from: nat, mid: nat, to: nat)
    requires mid <= to
    ensures NewTables(s, root, from, mid) <= NewTables(s, root, from, to)
    ensures NewNodes(s, root, from, mid) <= NewNodes(s, root, from, to)
  {
    hide Tables, Nodes;
    NodesWithin(root, from, mid, to);
    AddedMore(s.at.Keys, Tables(root, from, mid), Tables(root, from, to));
    AddedMore(s.at.Keys, Nodes(root, from, mid), Nodes(root, from, to));
  }

  lemma NewNone(s: Memory, root: nat, v: nat)
    ensures NewTables(s, root, v, v) == NewNodes(s, root, v, v) == 0
  {
    NodesNone(root, v);
  }

  /** Four free pages for each page of a range are always enough. */
  lemma FourSuffice(s: Memory, root: nat, from: nat, to: nat)
    requires from <= to
    ensures NewTables(s, root, from, to) <= NewNodes(s, root, from, to) <= 4 * (to - from)
  {
    SubsetSize(Tables(root, from, to) - s.at.Keys, Nodes(root, from, to) - s.at.Keys);
    SubsetSize(Nodes(root, from, to) - s.at.Keys, Nodes(root, from, to));
    FreshCount(root, from, to);
    FourEach(root, from, to);
  }

  /** The tables of a walk from `level` up to, but not, the root. */
  ghost function Down(root: nat, vpn: nat, level: nat): set<Node>
    requires 1 <= level <= 4
    decreases 4 - level
  {
    if level == 4 then {} else Down(root, vpn, level + 1) + {TableNode(root, vpn, level)}
  }

  lemma DownAll(root: nat, vpn: nat)
    ensures Down(root, vpn, 1) == Tables(root, vpn, vpn + 1) && Down(root, vpn, 4) == {}
  {
    hide Tables, TableNode;
    NodesOne(root, vpn);
    assert Down(root, vpn, 3) == {TableNode(root, vpn, 3)};
    assert Down(root, vpn, 2) == {TableNode(root, vpn, 3), TableNode(root, vpn, 2)};
  }

  lemma {:induction false} DownLevels(root: nat, vpn: nat, level: nat)
    requires 1 <= level <= 4
    ensures forall n :: n in Down(root, vpn, level) ==> n.level >= level
    ensures Down(root, vpn, level) <= Down(root, vpn, 1)
    decreases 4 - level
  {
    if level < 4 {
      DownLevels(root, vpn, level + 1);
    }
    var l := level;
    while l > 1
      invariant 1 <= l <= level && Down(root, vpn, level) <= Down(root, vpn, l)
    {
      l := l - 1;
    }
  }

  /** One level of the walk: the trees have gained the tables down to it. */
  lemma DownGrew(s0: Memory, s1: Memory, s2: Memory, root: nat, vpn: nat, level: nat)
    requires 2 <= level <= 4 && AtGrew(s0, s1, Down(root, vpn, level))
    requires AtGrew(s1, s2, {TableNode(root, vpn, level - 1)})
    ensures AtGrew(s0, s2, Down(root, vpn, level - 1))
  {
    hide TableNode;
  }

  lemma WalkStarts(s: Memory, root: nat, vpn: nat)
    ensures AtGrew(s, s, Down(root, vpn, 4))
  {
  }

  /** A walk that reaches the page table has paid for every table that was missing. */
  lemma WalkEnds(s0: Memory, s1: Memory, root: nat, vpn: nat, lo: nat)
    requires AtGrew(s0, s1, Down(root, vpn, 1))
    requires Counted(s0, lo) && Counted(s1, lo) && |s1.mem| == |s0.mem| && s1.other == s0.other
    ensures AtGrew(s0, s1, Tables(root, vpn, vpn + 1))
    ensures |s1.fl| + NewTables(s0, root, vpn, vpn + 1) == |s0.fl|
  {
    hide Tables, Down, TableNode;
    DownAll(root, vpn);
    Paid(s0, s1, Tables(root, vpn, vpn + 1), lo);
  }

  /** A walk that stops at an empty list needed more pages than there were. */
  lemma WalkStuck(s0: Memory, s1: Memory, root: nat, vpn: nat, level: nat, lo: nat)
    requires 2 <= level <= 4 && AtGrew(s0, s1, Down(root, vpn, level)) && TableNode(root, vpn, level - 1) !in s1.at
    requires Counted(s0, lo) && Counted(s1, lo) && |s1.mem| == |s0.mem| && s1.other == s0.other && s1.fl == []
    ensures |s0.fl| < NewTables(s0, root, vpn, vpn + 1)
  {
    Paid(s0, s1, Down(root, vpn, level), lo);
    DownAll(root, vpn);
    DownLevels(root, vpn, level - 1);
    var keys, a, t := s0.at.Keys, Down(root, vpn, level), TableNode(root, vpn, level - 1);
    assert Down(root, vpn, level - 1) == a + {t};
    hide Tables, TableNode, Down, Counted;
    AddedOne(keys, a, t);
    AddedMore(keys, a + {t}, Tables(root, vpn, vpn + 1));
  }

  /** The first of the pages `from..to` that is mapped, or that is not; `to` if there is none. */
  ghost function First(at: map<Node, nat>, root: nat, from: nat, to: nat, mapped: bool): nat
    decreases if from < to then to - from else 0
  {
    if from >= to || (Node(root, 0, from) in at) == mapped then from else First(at, root, from + 1, to, mapped)
  }

  ghost predicate NoneIs(at: map<Node, nat>, root: nat, from: nat, to: nat, mapped: bool) {
    forall w: nat :: from <= w < to ==> (Node(root, 0, w) in at) != mapped
  }

  lemma NoneMore(at: map<Node, nat>, root: nat, from: nat, to: nat, mapped: bool)
    ensures NoneIs(at, root, from, from, mapped)
    ensures NoneIs(at, root, from, to, mapped) && (Node(root, 0, to) in at) != mapped ==>
              NoneIs(at, root, from, to + 1, mapped)
  {
  }

  lemma {:induction false} FirstIs(at: map<Node, nat>, root: nat, from: nat, to: nat, mapped: bool, v: nat)
    requires from <= v <= to && NoneIs(at, root, from, v, mapped)
    ensures v <= First(at, root, from, to, mapped) <= to
    ensures v == First(at, root, from, to, mapped) <==> v == to || (Node(root, 0, v) in at) == mapped
    decreases if from < to then to - from else 0
  {
    if from < v {
      FirstIs(at, root, from + 1, to, mapped, v);
    } else if from < to && (Node(root, 0, from) in at) != mapped {
      FirstIs(at, root, from + 1, to, mapped, from + 1);
    }
  }

  lemma FirstNone(at: map<Node, nat>, root: nat, from: nat, to: nat, mapped: bool)
    ensures from >= to ==> First(at, root, from, to, mapped) == from
  {
  }

  lemma {:induction false} FirstStops(at: map<Node, nat>, root: nat, from: nat, to: nat, mapped: bool)
    ensures var v := First(at, root, from, to, mapped); v < to ==> (Node(root, 0, v) in at) == mapped
    decreases if from < to then to - from else 0
  {
    if from < to && (Node(root, 0, from) in at) != mapped {
      FirstStops(at, root, from + 1, to, mapped);
    }
  }

  /** A mapped page has its tables. */
  lemma LeafTables(s: Memory, root: nat, vpn: nat)
    requires Shape(s.at, s.role, |s.mem|) && Node(root, 0, vpn) in s.at && vpn < USERPAGES
    ensures NewTables(s, root, vpn, vpn + 1) == 0
  {
    assert NodeOk(s.at, s.role, |s.mem|, Node(root, 0, vpn));
    LeafStep(root, vpn);
    hide Shape, Tables, TableNode;
    TablesThere(s, root, vpn);
    assert Tables(root, vpn, vpn + 1) - s.at.Keys == {};
  }

  lemma LeafBefore(s0: Memory, s1: Memory, root: nat, from: nat, v: nat)
    requires AtGrew(s0, s1, Nodes(root, from, v))
    ensures Node(root, 0, v) in s1.at <==> Node(root, 0, v) in s0.at
  {
    hide Nodes;
    NodesOf(root, from, v);
  }

  /** Pages `from..v` are mapped, and `v` is next: what it costs decides how the whole range ends. */
  lemma MapNext(s0: Memory, s1: Memory, root: nat, from: nat, v: nat, to: nat)
    requires from <= v < to && AtGrew(s0, s1, Nodes(root, from, v))
    requires NoneIs(s0.at, root, from, v, true)
    requires |s1.fl| + NewTables(s0, root, from, v) == |s0.fl|
    ensures var e := First(s0.at, root, from, to, true);
            && (Node(root, 0, v) in s1.at <==> Node(root, 0, v) in s0.at)
            && (Node(root, 0, v) in s0.at <==> e == v) && v <= e
            && NewTables(s0, root, from, v + 1) == NewTables(s0, root, from, v) + NewTables(s1, root, v, v + 1)
            && (|s1.fl| < NewTables(s1, root, v, v + 1) && e != v ==> |s0.fl| < NewTables(s0, root, from, e))
  {
    hide Nodes, NewNodes, NewTables, AtGrew, First, NoneIs;
    LeafBefore(s0, s1, root, from, v);
    FirstIs(s0.at, root, from, to, true, v);
    NewTablesNext(s0, s1, root, from, v);
    var e := First(s0.at, root, from, to, true);
    if v < e {
      NewMore(s0, root, from, v + 1, e);
    }
  }

  lemma GrowNext(s0: Memory, s1: Memory, root: nat, from: nat, v: nat, to: nat)
    requires from <= v < to && AtGrew(s0, s1, Nodes(root, from, v))
    requires NoneIs(s0.at, root, from, v, true)
    requires |s1.fl| + NewNodes(s0, root, from, v) == |s0.fl|
    ensures var e := First(s0.at, root, from, to, true);
            && (Node(root, 0, v) in s1.at <==> Node(root, 0, v) in s0.at)
            && (Node(root, 0, v) in s0.at <==> e == v) && v <= e
            && NewNodes(s0, root, from, v + 1) == NewNodes(s0, root, from, v) + NewNodes(s1, root, v, v + 1)
            && (|s1.fl| < NewNodes(s1, root, v, v + 1) && e != v ==> |s0.fl| < NewNodes(s0, root, from, e))
  {
    hide Nodes, NewNodes, NewTables, AtGrew, First, NoneIs;
    LeafBefore(s0, s1, root, from, v);
    FirstIs(s0.at, root, from, to, true, v);
    NewNodesNext(s0, s1, root, from, v);
    var e := First(s0.at, root, from, to, true);
    if v < e {
      NewMore(s0, root, from, v + 1, e);
    }
  }

  // ---------- mapping one page ----------

  /** From `s` to `s'` page `c` has been mapped at `vpn`. */
  ghost predicate PageIn(s: Memory, s': Memory, root: nat, vpn: nat, c: nat, perm: Flags)
    requires TableNode(root, vpn, 1) in s.at && s.at[TableNode(root, vpn, 1)] < |s.mem|
  {
    var p := s.at[TableNode(root, vpn, 1)];
    && s'.mem == s.mem[p := s.mem[p][vpn % ENTRIES := Entry(c, perm)]]
    && s'.at == s.at[Node(root, 0, vpn) := c] && s'.role == s.role[c := Node(root, 0, vpn)]
    && s'.fl == s.fl && s'.other == s.other - {c}
  }

  /** From `s` to `s'` the address space `root` has gained pages at `from..to`, out of the pages `c` and on. */
  ghost predicate Gained(s: Memory, s': Memory, root: nat, from: nat, to: nat, c: nat, perm: Flags)
    requires from <= to && c + (to - from) <= |s.mem|
  {
    && |s'.mem| == |s.mem|
    && MapsExcept(s.mem, s.at, s'.mem, s'.at, root, from, to)
    && (forall v {:trigger Lookup(s'.mem, s'.at, root, v)} :: from <= v < to ==>
          Lookup(s'.mem, s'.at, root, v) == Mapped(c + (v - from), FlagsOf(Entry(c, perm)), s.mem[c + (v - from)]))
    && (forall n :: n in s.at ==> n in s'.at && s'.at[n] == s.at[n])
    && AtGrew(s, s', Nodes(root, from, to))
    && (forall p :: p in s'.other <==> p in s.other && !(c <= p < c + (to - from)))
    && (forall p :: p in s'.other && p < |s.mem| ==> s'.mem[p] == s.mem[p])
    && (forall p :: p in s'.fl ==> p in s.fl)
  }

  /** With its tables in place a page adds one node. */
  lemma LeafGrew(s: Memory, s': Memory, root: nat, vpn: nat, c: nat)
    requires Shape(s.at, s.role, |s.mem|) && TableNode(root, vpn, 1) in s.at && vpn < USERPAGES
    requires s'.at == s.at[Node(root, 0, vpn) := c]
    ensures AtGrew(s, s', Nodes(root, vpn, vpn + 1))
  {
    hide Shape, Tables, Nodes, TableNode;
    TablesThere(s, root, vpn);
    NodesOne(root, vpn);
  }

  lemma TablesThere(s: Memory, root: nat, vpn: nat)
    requires Shape(s.at, s.role, |s.mem|) && TableNode(root, vpn, 1) in s.at && vpn < USERPAGES
    ensures Tables(root, vpn, vpn + 1) <= s.at.Keys
  {
    hide Shape, Tables, Nodes, TableNode;
    NodesOne(root, vpn);
    Ancestors(s.at, s.role, |s.mem|, root, vpn, 1);
    Ancestors(s.at, s.role, |s.mem|, root, vpn, 2);
  }

  lemma PageAdded(s: Memory, s': Memory, root: nat, vpn: nat, c: nat, perm: Flags, head: nat, lo: nat, kpdpt: nat)
    requires Trees(s, kpdpt) && TableNode(root, vpn, 1) in s.at && s.at[TableNode(root, vpn, 1)] < |s.mem|
    requires Node(root, 0, vpn) !in s.at && c in s.other && c < |s.mem| && c != kpdpt && vpn < USERPAGES
    requires PageIn(s, s', root, vpn, c, perm)
    requires Linked(s.mem, head, s.fl) && Held(lo, |s.mem|, s.fl, s.role, s.other)
    ensures Trees(s', kpdpt) && Gained(s, s', root, vpn, vpn + 1, c, perm)
    ensures Linked(s'.mem, head, s'.fl) && Held(lo, |s'.mem|, s'.fl, s'.role, s'.other)
  {
    hide Linked, Shape, Entries, Lookup, Entry, MapsExcept, AtGrew, Nodes;
    var t := TableNode(root, vpn, 1);
    LeafStep(root, vpn);
    LeafGrew(s, s', root, vpn, c);
    assert s.mem[c := s.mem[c]] == s.mem;
    Attach(s.mem, s.at, s.role, t, vpn % ENTRIES, c, perm, s.mem[c]);
    LeafMaps(s.mem, s.at, s.role, root, vpn, c, perm);
    HeldInTree(lo, |s.mem|, s.fl, s.role, s.other, c, Node(root, 0, vpn));
    TableUpdated(s, s', t, vpn % ENTRIES, Entry(c, perm), head, lo, kpdpt);
  }

  /** A store to an entry of a level-1 table disturbs neither the free pages nor the kernel's entries. */
  lemma TableUpdated(s: Memory, s': Memory, t: Node, i: nat, e: nat, head: nat, lo: nat, kpdpt: nat)
    requires Shape(s.at, s.role, |s.mem|) && Kernel(s, kpdpt)
    requires t in s.at && t.level == 1 && i < ENTRIES && s.at[t] < |s.mem|
    requires s'.mem == s.mem[s.at[t] := s.mem[s.at[t]][i := e]] && s'.fl == s.fl && kpdpt in s'.other
    requires forall n :: n in s'.at && n.level == 4 ==> n in s.at && s'.at[n] == s.at[n]
    requires Linked(s.mem, head, s.fl) && Held(lo, |s.mem|, s.fl, s.role, s.other)
    ensures Linked(s'.mem, head, s'.fl) && Kernel(s', kpdpt)
    ensures forall p :: p in s.other && p < |s.mem| ==> s'.mem[p] == s.mem[p]
  {
    hide Linked, Entry, Shape;
    TableInRole(s, t);
    FreeUntouched(s.mem, s'.mem, head, s.fl);
    forall k | k in s'.at && k.level == 4 && s'.at[k] < |s'.mem|
      ensures s'.mem[s'.at[k]][KERNEL_ENTRY] == Entry(kpdpt, PTE_W)
    {
      TableInRole(s, k);
    }
  }

  lemma GrewGained(s0: Memory, s1: Memory, s2: Memory, root: nat, from: nat, c: nat, perm: Flags)
    requires Grew(s0, s1, root) && c < |s0.mem| && c in s0.other && Gained(s1, s2, root, from, from + 1, c, perm)
    requires AtGrew(s0, s1, Tables(root, from, from + 1))
    ensures Gained(s0, s2, root, from, from + 1, c, perm)
  {
    hide Lookup, Entry, AtGrew, Nodes;
    TablesFirst(s0, s1, s2, root, from);
  }

  lemma TablesFirst(s0: Memory, s1: Memory, s2: Memory, root: nat, v: nat)
    requires AtGrew(s0, s1, Tables(root, v, v + 1)) && AtGrew(s1, s2, Nodes(root, v, v + 1))
    ensures AtGrew(s0, s2, Nodes(root, v, v + 1))
  {
    hide Tables, Nodes;
    NodesOne(root, v);
  }

  lemma GainedFacts(s: Memory, s': Memory, root: nat, from: nat, to: nat, c: nat, perm: Flags)
    requires from <= to && c + (to - from) <= |s.mem| && Gained(s, s', root, from, to, c, perm)
    ensures |s'.mem| == |s.mem|
    ensures Node(root, 4, 0) in s.at ==> Node(root, 4, 0) in s'.at
    ensures Node(root, 0, to) in s'.at ==> Node(root, 0, to) in s.at
    ensures Node(root, 0, to) in s.at ==> Node(root, 0, to) in s'.at
    ensures c + (to - from) in s.other ==> c + (to - from) in s'.other
    ensures AtGrew(s, s', Nodes(root, from, to))
  {
    hide Lookup, Entry, Nodes;
    NodesOf(root, from, to);
  }

  lemma GainedNone(s: Memory, root: nat, from: nat, c: nat, perm: Flags)
    requires c <= |s.mem|
    ensures Gained(s, s, root, from, from, c, perm)
  {
    hide Nodes;
    NodesNone(root, from);
  }

  /**
   From `s` to `s'` a range of pages has been mapped up to some page before `to`: those have their
   translations, and no other translation has changed.
   */
  ghost predicate MapStopped(s: Memory, s': Memory, root: nat, from: nat, to: nat, c: nat, perm: Flags)
    requires from <= to && c + (to - from) <= |s.mem|
  {
    exists mid: nat, s1 ::
      from <= mid < to && Gained(s, s1, root, from, mid, c, perm) && Grew(s1, s', root)
  }

  lemma MapStops(s0: Memory, s1: Memory, s2: Memory, root: nat, from: nat, mid: nat, to: nat, c: nat, perm: Flags)
    requires from <= mid < to && c + (to - from) <= |s0.mem|
    requires Gained(s0, s1, root, from, mid, c, perm) && Grew(s1, s2, root)
    ensures MapStopped(s0, s2, root, from, to, c, perm)
  {
    hide Gained, Grew;
  }

  lemma GainedMore(s0: Memory, s1: Memory, s2: Memory, root: nat, from: nat, mid: nat, c: nat, perm: Flags)
    requires from <= mid && c + (mid - from) < |s0.mem| && |s1.mem| == |s0.mem|
    requires forall p :: c <= p <= c + (mid - from) ==> p in s0.other
    requires Gained(s0, s1, root, from, mid, c, perm)
    requires Gained(s1, s2, root, mid, mid + 1, c + (mid - from), perm)
    ensures Gained(s0, s2, root, from, mid + 1, c, perm)
  {
    hide Lookup, AtGrew, Nodes;
    RangeGrew(s0, s1, s2, root, from, mid);
    assert FlagsOf(Entry(c, perm)) == FlagsOf(Entry(c + (mid - from), perm));
    forall r, v: nat | !(r == root && from <= v < mid + 1)
      ensures Lookup(s2.mem, s2.at, r, v) == Lookup(s0.mem, s0.at, r, v)
    {
      assert Lookup(s1.mem, s1.at, r, v) == Lookup(s0.mem, s0.at, r, v);
    }
    forall v {:trigger Lookup(s2.mem, s2.at, root, v)} | from <= v < mid + 1
      ensures Lookup(s2.mem, s2.at, root, v) == Mapped(c + (v - from), FlagsOf(Entry(c, perm)), s0.mem[c + (v - from)])
    {
      assert c + (v - from) in s0.other;
      assert v < mid ==> Lookup(s1.mem, s1.at, root, v) == Lookup(s2.mem, s2.at, root, v);
    }
  }

  /** A store to a page of a tree leaves the free list alone. */
  lemma TreeWrite(s: Memory, p: nat, page: Page, head: nat, lo: nat)
    requires Linked(s.mem, head, s.fl) && Held(lo, |s.mem|, s.fl, s.role, s.other) && p in s.role && p < |s.mem|
    ensures Linked(s.mem[p := page], head, s.fl)
  {
    hide Linked;
    FreeUntouched(s.mem, s.mem[p := page], head, s.fl);
  }

  /** So does a store to a page the kernel holds. */
  lemma HeldWrite(s: Memory, p: nat, page: Page, head: nat, lo: nat)
    requires Linked(s.mem, head, s.fl) && Held(lo, |s.mem|, s.fl, s.role, s.other) && p in s.other && p < |s.mem|
    ensures Linked(s.mem[p := page], head, s.fl)
  {
    hide Linked;
    FreeUntouched(s.mem, s.mem[p := page], head, s.fl);
  }

  /** Different nodes are in different pages. */
  lemma Apart(s: Memory, n: Node, m: Node)
    requires Shape(s.at, s.role, |s.mem|) && n in s.at && n != m
    ensures m in s.at ==> s.at[n] != s.at[m]
  {
    assert NodeOk(s.at, s.role, |s.mem|, n);
    if m in s.at {
      assert NodeOk(s.at, s.role, |s.mem|, m);
    }
  }

  lemma NoTable(s: Memory, root: nat, vpn: nat, lo: nat)
    requires 0 < lo && Shape(s.at, s.role, |s.mem|) && Held(lo, |s.mem|, s.fl, s.role, s.other)
    requires TableNode(root, vpn, 1) in s.at ==> s.at[TableNode(root, vpn, 1)] == 0
    ensures Node(root, 0, vpn) !in s.at
  {
    LeafStep(root, vpn);
  }

  /** The pages held in `s'` were held in `s`, and are as they were. */
  ghost predicate Kept(s: Memory, s': Memory) {
    && |s'.mem| == |s.mem| && s'.other == s.other
    && (forall p :: p in s'.role && p < |s.mem| ==> p in s.role && s'.mem[p] == s.mem[p])
    && (forall p :: p in s'.other && p < |s.mem| ==> s'.mem[p] == s.mem[p])
  }

  lemma KeptSelf(s: Memory)
    ensures Kept(s, s)
  {
  }

  lemma KeptTwice(s0: Memory, s1: Memory, s2: Memory)
    requires Kept(s0, s1) && Kept(s1, s2)
    ensures Kept(s0, s2)
  {
  }

  /** Removing a subtree leaves the node above it. */
  lemma StillThere(at: map<Node, nat>, n: Node, i: nat)
    requires n in at && n.level > 0
    ensures n in Pruned(at, Child(n, i)) && Pruned(at, Child(n, i))[n] == at[n]
  {
  }

  /** Every page of a tree is one the allocator manages, so not page 0. */
  lemma TreePage(s: Memory, n: Node, lo: nat)
    requires n in s.at && Shape(s.at, s.role, |s.mem|) && Held(lo, |s.mem|, s.fl, s.role, s.other)
    ensures lo <= s.at[n] < |s.mem| && s.at[n] in s.role && s.at[n] !in s.other
  {
    assert NodeOk(s.at, s.role, |s.mem|, n);
  }

  // ---------- mapping a range of pages of their own ----------

  /** What fills the pages of a range: zeroes, or the pages of another address space. */
  datatype Source = Zeroes | CopyOf(s: Memory, root: nat)

  ghost function Want(w: Source, vpn: nat): Mapping {
    match w
    case Zeroes => Mapped(0, PTE_P + PTE_W + PTE_U, ZERO_PAGE)
    case CopyOf(s, root) => Lookup(s.mem, s.at, root, vpn)
  }

  ghost predicate SameUse(m: Mapping, want: Mapping) {
    m.Mapped? && want.Mapped? && m.flags == want.flags && m.page == want.page
  }

  /** From `s` to `s'` the address space `root` has gained the pages `from..to`, each in a frame that was free. */
  ghost predicate Backed(s: Memory, s': Memory, root: nat, from: nat, to: nat, w: Source) {
    && |s'.mem| == |s.mem| && s'.other == s.other
    && MapsExcept(s.mem, s.at, s'.mem, s'.at, root, from, to)
    && (forall v: nat :: from <= v < to ==> SameUse(Lookup(s'.mem, s'.at, root, v), Want(w, v)))
    && (forall v: nat :: from <= v < to ==> Lookup(s'.mem, s'.at, root, v).frame in s.fl)
    && (forall n :: n in s.at ==> n in s'.at && s'.at[n] == s.at[n])
    && AtGrew(s, s', Nodes(root, from, to))
    && (forall p :: p in s.other && p < |s.mem| ==> s'.mem[p] == s.mem[p])
    && (forall p :: p in s'.fl ==> p in s.fl)
  }

  /** The pages `from..mid` are there, and every other translation is as it was. */
  ghost predicate Part(s: Memory, s': Memory, root: nat, from: nat, mid: nat, w: Source) {
    && MapsExcept(s.mem, s.at, s'.mem, s'.at, root, from, mid)
    && (forall v: nat :: from <= v < mid ==> SameUse(Lookup(s'.mem, s'.at, root, v), Want(w, v)))
    && (forall v: nat :: from <= v < mid ==> Lookup(s'.mem, s'.at, root, v).frame in s.fl)
    && (forall n :: n in s.at ==> n in s'.at && s'.at[n] == s.at[n])
  }

  /** From `s` to `s'` an address space has been growing, and has stopped before `to`. */
  ghost predicate Stopped(s: Memory, s': Memory, root: nat, from: nat, to: nat, w: Source) {
    exists mid: nat :: from <= mid < to && Part(s, s', root, from, mid, w)
  }

  /** From `s` to `s'` a page and tables may have been taken, and no translation has changed. */
  ghost predicate Stalled(s: Memory, s': Memory) {
    && |s'.mem| == |s.mem| && SameMaps(s.mem, s.at, s'.mem, s'.at)
    && (forall n :: n in s.at ==> n in s'.at && s'.at[n] == s.at[n])
  }

  lemma StalledOnce(s0: Memory, s1: Memory, s2: Memory, s3: Memory, root: nat, c: nat, page: Page)
    requires Taken(s0, s1, c) && s2.mem == s1.mem[c := page] && s2.at == s1.at
    requires SameMaps(s1.mem, s1.at, s2.mem, s2.at) && Grew(s2, s3, root)
    ensures Stalled(s0, s3)
  {
    hide Lookup;
    forall r, v ensures Lookup(s3.mem, s3.at, r, v) == Lookup(s0.mem, s0.at, r, v) {
      assert Lookup(s2.mem, s2.at, r, v) == Lookup(s1.mem, s1.at, r, v);
    }
  }

  lemma StalledSelf(s: Memory)
    ensures Stalled(s, s)
  {
  }

  lemma Stops(s0: Memory, s1: Memory, s2: Memory, root: nat, from: nat, mid: nat, to: nat, w: Source)
    requires from <= mid < to && Backed(s0, s1, root, from, mid, w) && Stalled(s1, s2)
    ensures Part(s0, s2, root, from, mid, w) && Stopped(s0, s2, root, from, to, w)
  {
    hide Lookup, Want, AtGrew, Nodes;
    forall r, v: nat ensures Lookup(s2.mem, s2.at, r, v) == Lookup(s1.mem, s1.at, r, v) {
    }
  }

  /** A page taken, filled and mapped. */
  lemma BackedOnce(s0: Memory, s1: Memory, s2: Memory, s3: Memory, root: nat, vpn: nat, c: nat, page: Page,
                   perm: Flags, w: Source)
    requires Taken(s0, s1, c) && s2.mem == s1.mem[c := page] && s2.at == s1.at && s2.fl == s1.fl && s2.other == s1.other
    requires SameMaps(s1.mem, s1.at, s2.mem, s2.at) && Gained(s2, s3, root, vpn, vpn + 1, c, perm)
    requires SameUse(Mapped(0, FlagsOf(Entry(c, perm)), page), Want(w, vpn))
    ensures Backed(s0, s3, root, vpn, vpn + 1, w)
  {
    hide Lookup, Entry, Want, Nodes;
    assert Lookup(s3.mem, s3.at, root, vpn) == Mapped(c, FlagsOf(Entry(c, perm)), page);
    assert forall p :: p in s1.fl ==> p in s0.fl;
    assert s3.other == s0.other;
  }

  lemma BackedNone(s: Memory, root: nat, from: nat, w: Source)
    ensures Backed(s, s, root, from, from, w)
  {
    hide Nodes;
    NodesNone(root, from);
  }

  lemma BackedFacts(s: Memory, s': Memory, root: nat, from: nat, to: nat, w: Source)
    requires Backed(s, s', root, from, to, w)
    ensures |s'.mem| == |s.mem|
    ensures forall r :: Node(r, 4, 0) in s.at ==> Node(r, 4, 0) in s'.at
    ensures Node(root, 0, to) in s'.at <==> Node(root, 0, to) in s.at
    ensures AtGrew(s, s', Nodes(root, from, to)) && s'.other == s.other
  {
    hide Lookup, Want, Nodes;
    NodesOf(root, from, to);
  }

  lemma BackedMore(s0: Memory, s1: Memory, s2: Memory, root: nat, from: nat, mid: nat, w: Source)
    requires from <= mid && Backed(s0, s1, root, from, mid, w) && Backed(s1, s2, root, mid, mid + 1, w)
    ensures Backed(s0, s2, root, from, mid + 1, w)
  {
    hide Lookup, Want, AtGrew, Nodes;
    RangeGrew(s0, s1, s2, root, from, mid);
    forall r, v: nat | !(r == root && from <= v < mid + 1)
      ensures Lookup(s2.mem, s2.at, r, v) == Lookup(s0.mem, s0.at, r, v)
    {
      assert Lookup(s1.mem, s1.at, r, v) == Lookup(s0.mem, s0.at, r, v);
    }
    forall v: nat | from <= v < mid + 1
      ensures SameUse(Lookup(s2.mem, s2.at, root, v), Want(w, v)) && Lookup(s2.mem, s2.at, root, v).frame in s0.fl
    {
      assert v < mid ==> Lookup(s1.mem, s1.at, root, v) == Lookup(s2.mem, s2.at, root, v);
      assert v < mid ==>
               SameUse(Lookup(s1.mem, s1.at, root, v), Want(w, v)) && Lookup(s1.mem, s1.at, root, v).frame in s0.fl;
    }
  }

  /** Writing to a page that is in no tree. */
  lemma PageWritten(s: Memory, s': Memory, c: nat, page: Page, head: nat, lo: nat, kpdpt: nat)
    requires Trees(s, kpdpt) && c < |s.mem| && c in s.other && c != kpdpt
    requires s' == Memory(s.mem[c := page], s.at, s.role, s.fl, s.other)
    requires Linked(s.mem, head, s.fl) && Held(lo, |s.mem|, s.fl, s.role, s.other)
    ensures Trees(s', kpdpt) && SameMaps(s.mem, s.at, s'.mem, s'.at) && Linked(s'.mem, head, s'.fl)
  {
    hide Linked, Entries, SameMaps;
    forall n | n in s.at && s.at[n] < |s.mem| ensures s'.mem[s.at[n]] == s.mem[s.at[n]] {
      assert NodeOk(s.at, s.role, |s.mem|, n);
    }
    PagesOutside(s.mem, s'.mem, s.at, {});
    FreeUntouched(s.mem, s'.mem, head, s.fl);
  }

  // ---------- unmapping ----------

  /** From `s` to `s'` the address space `root` has lost its pages in `from..to`, and kept its tables. */
  ghost predicate Lost(s: Memory, s': Memory, root: nat, from: nat, to: nat) {
    && |s'.mem| == |s.mem| && s'.other == s.other
    && MapsExcept(s.mem, s.at, s'.mem, s'.at, root, from, to)
    && (forall v: nat :: from <= v < to ==> Lookup(s'.mem, s'.at, root, v) == Unmapped)
    && (forall n :: n in s'.at ==> n in s.at && s'.at[n] == s.at[n])
    && (forall n :: n in s.at ==> n in s'.at || LeafIn(n, root, from, to))
    && (forall n :: n in s'.at ==> !LeafIn(n, root, from, to))
    && (forall p :: p in s.other && p < |s.mem| ==> s'.mem[p] == s.mem[p])
  }

  ghost predicate LeafIn(n: Node, root: nat, from: nat, to: nat) {
    n.root == root && n.level == 0 && from <= n.prefix < to
  }

  lemma LostMore(s0: Memory, s1: Memory, s2: Memory, root: nat, from: nat, mid: nat)
    requires from <= mid && Lost(s0, s1, root, from, mid) && Lost(s1, s2, root, mid, mid + 1)
    ensures Lost(s0, s2, root, from, mid + 1)
  {
    hide Lookup;
    forall r, v: nat | !(r == root && from <= v < mid + 1)
      ensures Lookup(s2.mem, s2.at, r, v) == Lookup(s0.mem, s0.at, r, v)
    {
      assert Lookup(s1.mem, s1.at, r, v) == Lookup(s0.mem, s0.at, r, v);
    }
    forall v: nat | from <= v < mid + 1 ensures Lookup(s2.mem, s2.at, root, v) == Unmapped {
      assert v < mid ==> Lookup(s1.mem, s1.at, root, v) == Lookup(s2.mem, s2.at, root, v);
    }
  }

  lemma LostNone(s: Memory, root: nat, from: nat)
    ensures Lost(s, s, root, from, from)
  {
  }

  lemma LostFacts(s: Memory, s': Memory, root: nat, from: nat, to: nat)
    requires Lost(s, s', root, from, to)
    ensures |s'.mem| == |s.mem| && s'.other == s.other
    ensures forall r :: Node(r, 4, 0) in s.at ==> Node(r, 4, 0) in s'.at
    ensures forall n :: n in s'.at ==> n in s.at && s'.at[n] == s.at[n]
  {
    hide Lookup;
  }

  lemma LostNothing(s: Memory, root: nat, vpn: nat)
    requires Node(root, 0, vpn) !in s.at
    ensures Lost(s, s, root, vpn, vpn + 1)
  {
  }

  /** From `s` to `s'` the page at `vpn` has been freed and its entry cleared. */
  ghost predicate PageOut(s: Memory, s': Memory, root: nat, vpn: nat, c: nat, junk: Page)
    requires TableNode(root, vpn, 1) in s.at && s.at[TableNode(root, vpn, 1)] < |s.mem| && c < |s.mem|
  {
    var p := s.at[TableNode(root, vpn, 1)];
    && s'.mem == s.mem[p := s.mem[p][vpn % ENTRIES := 0]][c := junk]
    && s'.at == s.at - {Node(root, 0, vpn)} && s'.role == s.role - {c}
    && s'.other == s.other && s'.fl == [c] + s.fl
  }

  lemma PageRemoved(s: Memory, s': Memory, root: nat, vpn: nat, c: nat, junk: Page, head: nat, lo: nat, kpdpt: nat)
    requires Trees(s, kpdpt) && TableNode(root, vpn, 1) in s.at && s.at[TableNode(root, vpn, 1)] < |s.mem|
    requires Node(root, 0, vpn) in s.at && c == s.at[Node(root, 0, vpn)] && c < |s.mem|
    requires PageOut(s, s', root, vpn, c, junk)
    requires Linked(s.mem, head, s.fl) && Held(lo, |s.mem|, s.fl, s.role, s.other)
    ensures Trees(s', kpdpt) && Lost(s, s', root, vpn, vpn + 1)
  {
    hide Linked, Shape, Entries, Lookup, Entry, MapsExcept, SameMaps;
    var t := TableNode(root, vpn, 1);
    var mem1 := s.mem[s.at[t] := s.mem[s.at[t]][vpn % ENTRIES := 0]];
    var s1 := Memory(mem1, s'.at, s'.role, s.fl, s.other);
    LeafStep(root, vpn);
    Detach(s.mem, s.at, s.role, t, vpn % ENTRIES);
    NoLeafMaps(s.mem, s.at, s.role, root, vpn);
    TableUpdated(s, s1, t, vpn % ENTRIES, 0, head, lo, kpdpt);
    TreePage(s, Node(root, 0, vpn), lo);
    PageJunked(s1, s', c, kpdpt);
    ThenSame(s, s1, s', root, vpn, vpn + 1);
  }

  lemma ThenSame(s: Memory, s1: Memory, s': Memory, root: nat, from: nat, to: nat)
    requires MapsExcept(s.mem, s.at, s1.mem, s1.at, root, from, to) && SameMaps(s1.mem, s1.at, s'.mem, s'.at)
    requires forall v: nat :: from <= v < to ==> Lookup(s1.mem, s1.at, root, v) == Unmapped
    ensures MapsExcept(s.mem, s.at, s'.mem, s'.at, root, from, to)
    ensures forall v: nat :: from <= v < to ==> Lookup(s'.mem, s'.at, root, v) == Unmapped
  {
    hide Lookup;
  }

  /** A page that has left the trees is overwritten. */
  lemma PageJunked(s: Memory, s': Memory, c: nat, kpdpt: nat)
    requires Trees(s, kpdpt) && c < |s.mem| && c !in s.role && c !in s.other
    requires |s'.mem| == |s.mem| && s'.at == s.at && s'.role == s.role && s'.other == s.other
    requires forall p :: 0 <= p < |s.mem| && p != c ==> s'.mem[p] == s.mem[p]
    ensures Trees(s', kpdpt) && SameMaps(s.mem, s.at, s'.mem, s'.at)
  {
    hide Entries, SameMaps, Entry;
    forall n | n in s.at && s.at[n] < |s.mem| ensures s'.mem[s.at[n]] == s.mem[s.at[n]] {
      assert NodeOk(s.at, s.role, |s.mem|, n);
    }
    PagesOutside(s.mem, s'.mem, s.at, {});
  }

  /** What the trees have lost is on the free list, and nothing else is new there. */
  lemma FreedExactly(s: Memory, s': Memory, lo: nat)
    requires Shape(s.at, s.role, |s.mem|) && Shape(s'.at, s'.role, |s'.mem|) && |s'.mem| == |s.mem|
    requires Held(lo, |s.mem|, s.fl, s.role, s.other) && Held(lo, |s'.mem|, s'.fl, s'.role, s'.other)
    requires s'.other == s.other && forall n :: n in s'.at ==> n in s.at && s'.at[n] == s.at[n]
    ensures forall p :: p in s'.fl <==> p in s.fl || (p in s.role && s.role[p] !in s'.at)
  {
    forall p | p in s'.role ensures p in s.role && s.role[p] in s'.at {
      assert NodeOk(s'.at, s'.role, |s'.mem|, s'.role[p]) && NodeOk(s.at, s.role, |s.mem|, s'.role[p]);
    }
    forall p | p in s.role && s.role[p] in s'.at ensures p in s'.role {
      assert NodeOk(s'.at, s'.role, |s'.mem|, s.role[p]);
    }
  }

  /** Growing an address space and shrinking it again leaves every translation as it was. */
  lemma GrowShrink(s0: Memory, s1: Memory, s2: Memory, root: nat, from: nat, to: nat)
    requires Backed(s0, s1, root, from, to, Zeroes) && Lost(s1, s2, root, from, to)
    requires NoneIs(s0.at, root, from, to, true)
    ensures SameMaps(s0.mem, s0.at, s2.mem, s2.at) && s2.other == s0.other
  {
    hide Want;
    forall v: nat | from <= v < to ensures Lookup(s0.mem, s0.at, root, v) == Unmapped {
    }
    hide Lookup;
    forall r, v: nat ensures Lookup(s2.mem, s2.at, r, v) == Lookup(s0.mem, s0.at, r, v) {
      assert !(r == root && from <= v < to) ==> Lookup(s1.mem, s1.at, r, v) == Lookup(s0.mem, s0.at, r, v);
    }
  }

  // ---------- a new address space ----------

  /** From `s` to `s'` page `d` has become the root of an empty address space. */
  ghost predicate NewSpace(s: Memory, s': Memory, d: nat) {
    && |s'.mem| == |s.mem| && s'.other == s.other && d in s.fl
    && (forall n :: n in s.at ==> n.root != d) && s'.at == s.at[Node(d, 4, 0) := d]
    && SameMaps(s.mem, s.at, s'.mem, s'.at)
    && (forall v: nat :: Lookup(s'.mem, s'.at, d, v) == Unmapped)
    && (forall p :: p in s.other && p < |s.mem| ==> s'.mem[p] == s.mem[p])
    && (forall p :: p in s'.fl ==> p in s.fl)
  }

  lemma NoSpace(at: map<Node, nat>, role: map<nat, Node>, top: nat, d: nat)
    requires Shape(at, role, top) && d !in role
    ensures forall n :: n in at ==> n.root != d
  {
    forall n | n in at ensures n.root != d {
      assert NodeOk(at, role, top, n);
      UpInTree(at, role, top, n, 4);
      assert NodeOk(at, role, top, Up(n, 4));
    }
  }

  ghost predicate RootIn(s: Memory, s': Memory, d: nat, page: Page)
    requires d < |s.mem|
  {
    && s'.mem == s.mem[d := page] && s'.at == s.at[Node(d, 4, 0) := d] && s'.role == s.role[d := Node(d, 4, 0)]
    && s'.fl == s.fl && s'.other == s.other - {d}
  }

  lemma RootAdded(s0: Memory, s: Memory, s': Memory, d: nat, page: Page, head: nat, lo: nat, kpdpt: nat)
    requires Trees(s0, kpdpt) && Taken(s0, s, d) && RootIn(s, s', d, page)
    requires page == ZERO_PAGE[KERNEL_ENTRY := Entry(kpdpt, PTE_W)]
    requires Linked(s.mem, head, s.fl) && Held(lo, |s.mem|, s.fl, s.role, s.other)
    ensures Trees(s', kpdpt) && NewSpace(s0, s', d)
    ensures Linked(s'.mem, head, s'.fl) && Held(lo, |s'.mem|, s'.fl, s'.role, s'.other)
  {
    hide Linked, Shape, Entries, Lookup, Entry;
    NoSpace(s0.at, s0.role, |s0.mem|, d);
    RootShape(s0, s', d, page);
    RootMaps(s0, s', d, page);
    HeldInTree(lo, |s.mem|, s.fl, s.role, s.other, d, Node(d, 4, 0));
    FreeUntouched(s.mem, s'.mem, head, s.fl);
    assert s'.other == s0.other;
    assert forall p :: p in s.fl ==> p in s0.fl;
    assert Kernel(s', kpdpt) by { RootKernel(s0, s', d, page, kpdpt); }
  }

  lemma RootShape(s0: Memory, s': Memory, d: nat, page: Page)
    requires Shape(s0.at, s0.role, |s0.mem|) && d < |s0.mem| && d !in s0.role && |s'.mem| == |s0.mem|
    requires s'.at == s0.at[Node(d, 4, 0) := d] && s'.role == s0.role[d := Node(d, 4, 0)]
    requires forall n :: n in s0.at ==> n.root != d
    ensures Shape(s'.at, s'.role, |s'.mem|)
  {
    hide Parent;
    forall k | k in s'.at ensures NodeOk(s'.at, s'.role, |s'.mem|, k) {
      assert k != Node(d, 4, 0) ==> NodeOk(s0.at, s0.role, |s0.mem|, k);
    }
  }

  lemma RootMaps(s0: Memory, s': Memory, d: nat, page: Page)
    requires Shape(s0.at, s0.role, |s0.mem|) && Entries(s0.mem, s0.at, {}) && d < |s0.mem| && d !in s0.role
    requires s'.mem == s0.mem[d := page] && s'.at == s0.at[Node(d, 4, 0) := d]
    requires forall i :: 0 <= i < Width(4) ==> page[i] == 0
    requires forall n :: n in s0.at ==> n.root != d
    ensures Entries(s'.mem, s'.at, {}) && SameMaps(s0.mem, s0.at, s'.mem, s'.at)
    ensures forall v: nat :: Lookup(s'.mem, s'.at, d, v) == Unmapped
  {
    var r := Node(d, 4, 0);
    forall k, j | k in s'.at && s'.at[k] < |s'.mem| && k.level > 0 && 0 <= j < Width(k.level)
      ensures EntryOk(s'.mem, s'.at, k, j)
    {
      if k == r {
        assert Child(k, j).root == d;
      } else {
        assert NodeOk(s0.at, s0.role, |s0.mem|, k) && EntryOk(s0.mem, s0.at, k, j);
      }
    }
    forall q, v: nat ensures Lookup(s'.mem, s'.at, q, v) == Lookup(s0.mem, s0.at, q, v) {
      var leaf, t := Node(q, 0, v), TableNode(q, v, 1);
      assert leaf in s0.at ==> NodeOk(s0.at, s0.role, |s0.mem|, leaf);
      assert t in s0.at ==> NodeOk(s0.at, s0.role, |s0.mem|, t);
    }
  }

  lemma RootKernel(s0: Memory, s': Memory, d: nat, page: Page, kpdpt: nat)
    requires Kernel(s0, kpdpt) && Shape(s0.at, s0.role, |s0.mem|) && d < |s0.mem| && d !in s0.role && d !in s0.other
    requires s'.mem == s0.mem[d := page] && s'.at == s0.at[Node(d, 4, 0) := d] && s'.other == s0.other
    requires page[KERNEL_ENTRY] == Entry(kpdpt, PTE_W)
    ensures Kernel(s', kpdpt)
  {
    hide Entry;
    forall k | k in s'.at && k.level == 4 && s'.at[k] < |s'.mem|
      ensures s'.mem[s'.at[k]][KERNEL_ENTRY] == Entry(kpdpt, PTE_W)
    {
      assert k != Node(d, 4, 0) ==> NodeOk(s0.at, s0.role, |s0.mem|, k);
    }
  }

  lemma SpaceFacts(s0: Memory, s1: Memory, root: nat, d: nat)
    requires NewSpace(s0, s1, d) && Node(root, 4, 0) in s0.at
    ensures Node(root, 4, 0) in s1.at && Node(d, 4, 0) in s1.at && root != d
  {
    hide SameMaps, Lookup;
  }

  /** While a copy is made the original is as it was, and nothing is mapped in the copy beyond what was copied. */
  lemma CopiedFrom(s0: Memory, s1: Memory, s2: Memory, root: nat, d: nat, i: nat)
    requires NewSpace(s0, s1, d) && root != d && Backed(s1, s2, d, 1, i, CopyOf(s0, root))
    ensures Lookup(s2.mem, s2.at, root, i) == Lookup(s0.mem, s0.at, root, i)
    ensures Node(d, 0, i) !in s2.at
  {
    hide Lookup, Want, Nodes;
    NodesOf(d, 1, i);
    assert Lookup(s1.mem, s1.at, root, i) == Lookup(s0.mem, s0.at, root, i);
  }

  /**
   From `s` to `s'` page `d` has become the root of a copy of `root`: pages `1..to` have the
   same flags and contents in frames of their own, and nothing else has changed.
   */
  ghost predicate Copied(s: Memory, s': Memory, root: nat, d: nat, to: nat) {
    && Node(d, 4, 0) !in s.at && Node(d, 4, 0) in s'.at
    && (forall v: nat :: 1 <= v < to ==> SameUse(Lookup(s'.mem, s'.at, d, v), Lookup(s.mem, s.at, root, v)))
    && (forall v: nat :: 1 <= v < to ==> Lookup(s'.mem, s'.at, d, v).frame in s.fl)
    && (forall v: nat :: !(1 <= v < to) ==> Lookup(s'.mem, s'.at, d, v) == Unmapped)
    && (forall r, v: nat :: r != d ==> Lookup(s'.mem, s'.at, r, v) == Lookup(s.mem, s.at, r, v))
  }

  lemma CopyDone(s0: Memory, s1: Memory, s2: Memory, root: nat, d: nat, to: nat)
    requires NewSpace(s0, s1, d) && Part(s1, s2, d, 1, to, CopyOf(s0, root))
    ensures Copied(s0, s2, root, d, to)
  {
    hide Lookup;
    forall r, v: nat | !(r == d && 1 <= v < to)
      ensures Lookup(s2.mem, s2.at, r, v) == Lookup(s1.mem, s1.at, r, v)
    {
    }
    forall v: nat | 1 <= v < to ensures SameUse(Lookup(s2.mem, s2.at, d, v), Lookup(s0.mem, s0.at, root, v)) {
      assert SameUse(Lookup(s2.mem, s2.at, d, v), Want(CopyOf(s0, root), v));
    }
  }

  lemma BackedPart(s: Memory, s': Memory, root: nat, from: nat, to: nat, w: Source)
    requires Backed(s, s', root, from, to, w)
    ensures Part(s, s', root, from, to, w)
  {
    hide Lookup, Want, AtGrew, Nodes, SameUse;
  }

  /** A copy that has not been finished: nothing is there, or the pages before some page. */
  ghost predicate Unfinished(s: Memory, s': Memory, root: nat, to: nat) {
    s' == s || exists d, mid: nat :: 1 <= mid < to && Copied(s, s', root, d, mid)
  }

  lemma NotBegun(s: Memory, root: nat, to: nat)
    ensures Unfinished(s, s, root, to)
  {
  }

  lemma CopyStops(s0: Memory, s1: Memory, s2: Memory, root: nat, d: nat, mid: nat, to: nat)
    requires 1 <= mid < to && NewSpace(s0, s1, d) && Part(s1, s2, d, 1, mid, CopyOf(s0, root))
    ensures Unfinished(s0, s2, root, to)
  {
    hide NewSpace, Part, Copied;
    CopyDone(s0, s1, s2, root, d, mid);
  }

  /** In a new address space every page and table of a range is new. */
  lemma SpaceCost(s0: Memory, s1: Memory, d: nat, from: nat, to: nat)
    requires NewSpace(s0, s1, d)
    ensures NewNodes(s1, d, from, to) == Fresh(from, to)
  {
    hide Lookup, SameMaps, Nodes;
    NodesOf(d, from, to);
    FreshCount(d, from, to);
    assert Nodes(d, from, to) - s1.at.Keys == Nodes(d, from, to);
  }

  lemma LookupIs(s: Memory, root: nat, v: nat)
    requires Shape(s.at, s.role, |s.mem|)
    ensures Lookup(s.mem, s.at, root, v).Mapped? <==> Node(root, 0, v) in s.at
  {
    LeafStep(root, v);
    if Node(root, 0, v) in s.at {
      assert NodeOk(s.at, s.role, |s.mem|, Node(root, 0, v));
      assert NodeOk(s.at, s.role, |s.mem|, TableNode(root, v, 1));
    }
  }

  /** Pages `1..i` are copied, and `i` is next: the original still shows it as it was. */
  lemma CopyNext(s0: Memory, s1: Memory, s2: Memory, root: nat, d: nat, i: nat, to: nat)
    requires 1 <= i < to && NewSpace(s0, s1, d) && root != d && Shape(s0.at, s0.role, |s0.mem|)
    requires Backed(s1, s2, d, 1, i, CopyOf(s0, root)) && NoneIs(s0.at, root, 1, i, false)
    ensures i <= First(s0.at, root, 1, to, false) && Node(d, 0, i) !in s2.at
    ensures Lookup(s2.mem, s2.at, root, i) == Lookup(s0.mem, s0.at, root, i)
    ensures Lookup(s2.mem, s2.at, root, i).Mapped? <==> Node(root, 0, i) in s0.at
    ensures Node(root, 0, i) in s0.at <==> i != First(s0.at, root, 1, to, false)
  {
    hide NewSpace, Backed, First, Lookup, Shape, NoneIs;
    CopiedFrom(s0, s1, s2, root, d, i);
    LookupIs(s0, root, i);
    FirstIs(s0.at, root, 1, to, false, i);
  }

  /** What page `i` costs decides how the copy up to `e` ends. */
  lemma CopyCost(s0: Memory, s1: Memory, s2: Memory, d: nat, i: nat, e: nat)
    requires 1 <= i <= e && NewSpace(s0, s1, d) && AtGrew(s1, s2, Nodes(d, 1, i))
    requires |s2.fl| + NewNodes(s1, d, 1, i) == |s1.fl|
    ensures NewNodes(s1, d, 1, i) == Fresh(1, i)
    ensures NewNodes(s1, d, 1, i + 1) == NewNodes(s1, d, 1, i) + NewNodes(s2, d, i, i + 1)
    ensures |s2.fl| < NewNodes(s2, d, i, i + 1) && i < e ==> |s1.fl| < Fresh(1, e)
  {
    hide NewSpace, Nodes, NewNodes, NewTables, AtGrew, Fresh;
    SpaceCost(s0, s1, d, 1, i);
    NewNodesNext(s1, s2, d, 1, i);
    SpaceCost(s0, s1, d, 1, e);
    if i < e {
      NewMore(s1, d, 1, i + 1, e);
    }
  }

  lemma CopyEnds(s0: Memory, s1: Memory, s2: Memory, root: nat, d: nat, i: nat, to: nat)
    requires NewSpace(s0, s1, d) && Backed(s1, s2, d, 1, i, CopyOf(s0, root)) && 1 <= i
    requires |s2.fl| + NewNodes(s1, d, 1, i) == |s1.fl| && (i == to || (i == 1 && to <= 1))
    requires NoneIs(s0.at, root, 1, i, false)
    ensures Copied(s0, s2, root, d, to) && s2.other == s0.other
    ensures var e := First(s0.at, root, 1, to, false); e >= to && |s2.fl| + Fresh(1, e) == |s1.fl|
  {
    hide Nodes, NewNodes, NewTables, AtGrew, First, Lookup, Fresh, Want, SameUse, SameMaps, MapsExcept;
    assert s2.other == s0.other;
    hide NewSpace, Backed;
    BackedPart(s1, s2, d, 1, i, CopyOf(s0, root));
    CopyDone(s0, s1, s2, root, d, i);
    CopyEnd(s0, s2, root, d, i, to);
    SpaceCost(s0, s1, d, 1, i);
    if to >= 1 {
      FirstIs(s0.at, root, 1, to, false, i);
    }
    FirstNone(s0.at, root, 1, to, false);
  }

  lemma CopyEnd(s: Memory, s': Memory, root: nat, d: nat, i: nat, to: nat)
    requires Copied(s, s', root, d, i) && (i == to || (i == 1 && to <= 1))
    ensures Copied(s, s', root, d, to)
  {
    hide Lookup, SameUse;
  }

  // ---------- what the processor makes of it ----------

  /** Where kernel code finds physical memory: the first and the fourth GB, at KERNBASE + pa, and nothing else. */
  function DirectMap(pa: nat): Physical {
    if pa < 0x4000_0000 then
      At(pa, false, true, true)
    else if 0xC000_0000 <= pa < 0x1_0000_0000 then
      At(pa, false, true, false)
    else
      Nowhere
  }

  /** The 48 bits of KERNBASE + pa that are translated lead to `pa`, wherever the kernel's table is in place. */
  lemma KernelSees(mem: seq<Page>, root: nat, kpdpt: nat, pa: nat)
    requires root < |mem| && kpdpt < |mem| && mem[kpdpt] == KERNEL_PAGE && pa < 0x80_0000_0000
    requires mem[root][KERNEL_ENTRY] == Entry(kpdpt, PTE_W)
    ensures BigPage(mem, root, (KERNBASE + pa) % 0x1_0000_0000_0000) == DirectMap(pa)
  {
    hide Entry;
    var va := 0x8000_0000_0000 + pa;
    assert (KERNBASE + pa) % 0x1_0000_0000_0000 == va;
    FlagBits(Entry(kpdpt, PTE_W));
    BigIndex(pa);
    var g := pa / 0x4000_0000;
    assert mem[kpdpt][g] == if g == 0 then 0x83 else if g == 3 then 0xC000_009B else 0;
  }

  lemma BigIndex(pa: nat)
    requires pa < 0x80_0000_0000
    ensures (0x8000_0000_0000 + pa) / 0x80_0000_0000 % 0x200 == 256
    ensures (0x8000_0000_0000 + pa) / 0x4000_0000 % 0x200 == pa / 0x4000_0000
    ensures (0x8000_0000_0000 + pa) % 0x4000_0000 == pa % 0x4000_0000
  {
  }

  /** What user code sees of a page: where the processor finds it, and whether it may be read and written. */
  ghost predicate SameView(mem: seq<Page>, r: nat, mem': seq<Page>, r': nat, vpn: nat) {
    && Translate(mem', r', vpn) == Translate(mem, r, vpn)
    && forall write :: UserMay(mem', r', vpn, 4, write) == UserMay(mem, r, vpn, 4, write)
  }

  /** Where the tree has not changed, the processor sees no change. */
  lemma ViewKept(s: Memory, s': Memory, kpdpt: nat, r: nat, vpn: nat)
    requires Trees(s, kpdpt) && Trees(s', kpdpt) && vpn < USERPAGES && Node(r, 4, 0) in s.at && Node(r, 4, 0) in s'.at
    requires Lookup(s'.mem, s'.at, r, vpn) == Lookup(s.mem, s.at, r, vpn)
    ensures SameView(s.mem, r, s'.mem, r, vpn)
  {
    hide Shape, Entries, Kernel, Lookup, Translate, UserMay;
    TranslateRefines(s.mem, s.at, s.role, r, vpn);
    TranslateRefines(s'.mem, s'.at, s'.role, r, vpn);
    forall write ensures UserMay(s'.mem, r, vpn, 4, write) == UserMay(s.mem, r, vpn, 4, write) {
      RightsRefine(s.mem, s.at, s.role, r, vpn, write);
      RightsRefine(s'.mem, s'.at, s'.role, r, vpn, write);
    }
  }

  /** A page that allocuvm has added is zero, in a frame of its own, and user code may read and write it. */
  lemma BackedView(s: Memory, s': Memory, kpdpt: nat, root: nat, from: nat, to: nat, v: nat)
    requires Trees(s', kpdpt) && Node(root, 4, 0) in s'.at && Backed(s, s', root, from, to, Zeroes)
    requires from <= v < to && v < USERPAGES
    ensures UserMay(s'.mem, root, v, 4, true)
    ensures var m := Translate(s'.mem, root, v); m.Mapped? && m.page == ZERO_PAGE && m.frame in s.fl
  {
    hide Shape, Entries, Kernel, Lookup, Translate, UserMay, AtGrew, Nodes, MapsExcept;
    TranslateRefines(s'.mem, s'.at, s'.role, root, v);
    RightsRefine(s'.mem, s'.at, s'.role, root, v, true);
    assert SameUse(Lookup(s'.mem, s'.at, root, v), Want(Zeroes, v));
  }

  /** A page that copyuvm has copied has the parent's contents and the parent's rights, in a frame of its own. */
  lemma CopiedView(s: Memory, s': Memory, kpdpt: nat, root: nat, d: nat, to: nat, v: nat, write: bool)
    requires Trees(s, kpdpt) && Trees(s', kpdpt) && Node(root, 4, 0) in s.at && Copied(s, s', root, d, to)
    requires 1 <= v < to && v < USERPAGES
    ensures UserMay(s'.mem, d, v, 4, write) == UserMay(s.mem, root, v, 4, write)
    ensures var m, m' := Translate(s.mem, root, v), Translate(s'.mem, d, v);
            m.Mapped? && m'.Mapped? && m'.page == m.page && m'.flags == m.flags && m'.frame in s.fl
  {
    hide Shape, Entries, Kernel, Lookup, Translate, UserMay;
    TranslateRefines(s.mem, s.at, s.role, root, v);
    TranslateRefines(s'.mem, s'.at, s'.role, d, v);
    RightsRefine(s.mem, s.at, s.role, root, v, write);
    RightsRefine(s'.mem, s'.at, s'.role, d, v, write);
    assert SameUse(Lookup(s'.mem, s'.at, d, v), Lookup(s.mem, s.at, root, v));
  }

  class Vm {
    const lo: nat
    var mem: seq<Page>
    var freelist: nat
    var kpml4: nat
    var kpdpt: nat
    ghost var fl: seq<nat>
    ghost var at: map<Node, nat>
    ghost var role: map<nat, Node>
    ghost var other: set<nat>

    ghost function Now(): Memory
      reads this
    {
      Memory(mem, at, role, fl, other)
    }

    ghost predicate Pool()
      reads this
    {
      0 < lo <= |mem| && Linked(mem, freelist, fl) && Held(lo, |mem|, fl, role, other)
    }

    ghost predicate Valid()
      reads this
    {
      Pool() && Trees(Now(), kpdpt)
    }

    /** kinit1: every page from `lo` on is handed to the allocator. */
    constructor (lo: nat, memory: seq<Page>)
      requires 0 < lo <= |memory|
      ensures this.lo == lo && Pool() && |mem| == |memory| && at == map[] && role == map[] && other == {}
      ensures forall p :: p in fl <==> lo <= p < |mem|
    {
      this.lo, mem, freelist, kpml4, kpdpt := lo, memory, 0, 0, 0;
      fl, at, role, other := [], map[], map[], Range(lo, |memory|);
      new;
      Freerange(lo);
    }

    method Freerange(from: nat)
      requires Pool() && from <= |mem| && fl == [] && role == map[] && lo == from
      requires forall p :: p in other <==> from <= p < |mem|
      modifies this`mem, this`freelist, this`fl, this`other
      ensures Pool() && |mem| == |old(mem)| && other == {}
      ensures forall p :: p in fl <==> lo <= p < |mem|
    {
      hide Linked, Held;
      var p := from;
      while p < |mem|
        invariant from <= p <= |mem| == |old(mem)| && Pool()
        invariant forall q :: q in other <==> p <= q < |mem|
        invariant forall q :: q in fl <==> from <= q < p
      {
        var ok := Kfree(p);
        p := p + 1;
      }
      assert other == {};
    }

    /** The kernel's own root and the table of kernel mappings, shared by every address space made later. */
    method Kvmalloc() returns (out: Outcome)
      requires Pool() && at == map[] && role == map[]
      modifies this
      ensures Pool() && (out == Done || out == OutOfMemory) && (out == OutOfMemory <==> |old(fl)| < 2)
      ensures out == Done ==> Valid() && at == map[] && kpdpt != kpml4 && other == old(other) + {kpml4, kpdpt}
      ensures out == Done ==> forall i :: 0 <= i < 512 && i != 256 ==> mem[kpml4][i] == 0
      ensures out == Done ==>
                forall pa :: 0 <= pa < 0x80_0000_0000 ==>
                  BigPage(mem, kpml4, (KERNBASE + pa) % 0x1_0000_0000_0000) == DirectMap(pa)
    {
      hide Linked, Held, Entry, BigPage, DirectMap;
      out, kpml4 := Kalloc();
      if out != Done {
        return;
      }
      HeldWrite(Now(), kpml4, ZERO_PAGE, freelist, lo);
      mem := mem[kpml4 := ZERO_PAGE];
      out, kpdpt := Kalloc();
      if out != Done {
        return;
      }
      var page := ZERO_PAGE[0 := PTE_PS + PTE_P + PTE_W][3 := 0xC000_0000 + PTE_PS + PTE_P + PTE_W + PTE_PWT + PTE_PCD];
      HeldWrite(Now(), kpdpt, page, freelist, lo);
      mem := mem[kpdpt := page];
      HeldWrite(Now(), kpml4, mem[kpml4][KERNEL_ENTRY := Entry(kpdpt, PTE_W)], freelist, lo);
      mem := mem[kpml4 := mem[kpml4][KERNEL_ENTRY := Entry(kpdpt, PTE_W)]];
      forall pa | 0 <= pa < 0x80_0000_0000
        ensures BigPage(mem, kpml4, (KERNBASE + pa) % 0x1_0000_0000_0000) == DirectMap(pa)
      {
        KernelSees(mem, kpml4, kpdpt, pa);
      }
    }

    /** In every address space kernel code finds physical memory at the same place. */
    lemma KernelHalf(root: nat, pa: nat)
      requires Valid() && Node(root, 4, 0) in at && pa < 0x80_0000_0000
      ensures BigPage(mem, root, (KERNBASE + pa) % 0x1_0000_0000_0000) == DirectMap(pa)
    {
      RootPage(root, 0);
      KernelSees(mem, root, kpdpt, pa);
    }

    /** The rights that the processor finds on its way to a user page are those in the page's own entry. */
    lemma Rights(root: nat, vpn: nat, write: bool)
      requires Valid() && Node(root, 4, 0) in at && vpn < USERPAGES
      ensures var m := Translate(mem, root, vpn);
              UserMay(mem, root, vpn, 4, write) <==>
                m.Mapped? && m.flags / 4 % 2 == 1 && (write ==> m.flags / 2 % 2 == 1)
    {
      hide Linked, Held, Shape, Entries, Kernel, Translate, Lookup, UserMay;
      TranslateRefines(mem, at, role, root, vpn);
      RightsRefine(mem, at, role, root, vpn, write);
    }

    /** kfree's panic: the page is not one of the allocator's. */
    predicate Refused(p: nat)
      reads this
    {
      p < lo || p >= |mem|
    }

    /** The page is junked and goes to the head of the list. */
    method Kfree(p: nat) returns (ok: bool)
      requires Pool() && (!Refused(p) ==> p in other)
      modifies this`mem, this`freelist, this`fl, this`other
      ensures ok == !old(Refused(p))
      ensures !ok ==> Now() == old(Now()) && freelist == old(freelist)
      ensures ok ==> Now() == Memory(old(mem)[p := JUNK[0 := old(freelist)]], at, role, [p] + old(fl), old(other) - {p})
      ensures Pool()
    {
      if Refused(p) {
        return false;
      }
      HeldGiven(lo, |mem|, fl, role, other, p);
      PushFree(mem, freelist, fl, p);
      mem := mem[p := JUNK];
      mem := mem[p := mem[p][0 := freelist]];
      assert mem == old(mem)[p := JUNK[0 := freelist]];
      freelist := p;
      fl, other := [p] + fl, other - {p};
      ok := true;
    }

    /** Takes the page at the head of the list, or panics when there is none. */
    method Kalloc() returns (out: Outcome, p: nat)
      requires Pool()
      modifies this`freelist, this`fl, this`other
      ensures Pool()
      ensures old(fl) == [] ==> out == OutOfMemory && Now() == old(Now()) && freelist == old(freelist)
      ensures old(fl) != [] ==> out == Done && lo <= p && Taken(old(Now()), Now(), p)
    {
      hide Linked, Held;
      p := freelist;
      ListHead(lo, mem, freelist, fl, role, other);
      if p == 0 {
        return OutOfMemory, 0;
      }
      PopFree(mem, freelist, fl);
      HeldTaken(lo, |mem|, fl, role, other);
      freelist := mem[p][0];
      fl, other := fl[1..], other + {p};
      out := Done;
    }

    /**
     One level of the walk.  Returns the table below entry `i` of the table in page `p`,
     making it first where that is asked for, or 0 where there is none.
     */
    method Step(ghost n: Node, p: nat, i: nat, alloc: bool) returns (out: Outcome, q: nat)
      requires Valid() && n in at && at[n] == p && 1 < n.level && i < Width(n.level)
      modifies this`mem, this`freelist, this`fl, this`at, this`role, this`other
      ensures Valid() && Grew(old(Now()), Now(), n.root)
      ensures out == Done || out == OutOfMemory
      ensures out == OutOfMemory <==> alloc && old(fl) == [] && Child(n, i) !in old(at)
      ensures !alloc || out == OutOfMemory ==> Now() == old(Now()) && freelist == old(freelist)
      ensures out == Done && alloc ==> Child(n, i) in at && AtGrew(old(Now()), Now(), {Child(n, i)})
      ensures out == Done ==> q == if Child(n, i) in at then at[Child(n, i)] else 0
    {
      hide Linked, Held, Shape, Entries, Kernel, Grew, Child;
      TreeEntry(n, i);
      Unchanged();
      if Present(mem[p][i]) {
        return Done, PageOf(mem[p][i]);
      }
      if !alloc {
        return Done, 0;
      }
      ghost var s0 := Now();
      out, q := Kalloc();
      if out == OutOfMemory {
        return;
      }
      ghost var s := Now();
      mem := mem[q := ZERO_PAGE];
      mem := mem[p := mem[p][i := Entry(q, PTE_W + PTE_U)]];
      at, role, other := at[Child(n, i) := q], role[q := Child(n, i)], other - {q};
      TableAdded(s0, s, Now(), n, i, q, freelist, lo, kpdpt);
    }

    /**
     The page holding the page table of `vpn`, or 0.  With `alloc` the tables on the way
     are made where they are missing.
     */
    method Walkpgdir(root: nat, vpn: nat, alloc: bool) returns (out: Outcome, tab: nat)
      requires Valid() && Node(root, 4, 0) in at && vpn < USERPAGES
      modifies this`mem, this`freelist, this`fl, this`at, this`role, this`other
      ensures Valid() && Grew(old(Now()), Now(), root)
      ensures out == Done || out == OutOfMemory
      ensures out == OutOfMemory <==> alloc && |old(fl)| < NewTables(old(Now()), root, vpn, vpn + 1)
      ensures out == OutOfMemory ==> fl == []
      ensures !alloc ==> Now() == old(Now()) && freelist == old(freelist)
      ensures out == Done && alloc ==>
                && TableNode(root, vpn, 1) in at && AtGrew(old(Now()), Now(), Tables(root, vpn, vpn + 1))
                && |fl| + NewTables(old(Now()), root, vpn, vpn + 1) == |old(fl)|
      ensures out == Done ==> tab == if TableNode(root, vpn, 1) in at then at[TableNode(root, vpn, 1)] else 0
      ensures out == Done && (alloc || tab != 0) ==> Reaches(mem, root, vpn, 4, tab)
      ensures forall r, v: nat :: Node(r, 4, 0) in old(at) && v < USERPAGES ==> SameView(old(mem), r, mem, r, v)
    {
      hide Linked, Held, Shape, Entries, Kernel, Grew, Child, Index, AtGrew, Down, NewNodes, NewTables, Counted,
           TableNode, Tables, SameView, Reaches;
      ghost var s0 := Now();
      Numbers();
      Unchanged();
      RootPage(root, vpn);
      WalkStarts(s0, root, vpn);
      tab := root;
      var level := 4;
      while level > 1
        invariant 1 <= level <= 4 && Valid() && Grew(s0, Now(), root)
        invariant !alloc ==> Now() == s0 && freelist == old(freelist)
        invariant TableNode(root, vpn, level) in at && tab == at[TableNode(root, vpn, level)]
        invariant alloc ==> AtGrew(s0, Now(), Down(root, vpn, level))
      {
        ghost var s1 := Now();
        WalkStep(root, vpn, level);
        TableLevel(root, vpn, level);
        out, tab := Step(TableNode(root, vpn, level), tab, Index(vpn, level), alloc);
        GrewTwice(s0, s1, Now(), root);
        if out != Done {
          Numbers();
          GrewFacts(s0, Now(), root);
          WalkStuck(s0, s1, root, vpn, level, lo);
          ViewsKept(s0, root);
          return;
        }
        if alloc {
          DownGrew(s0, s1, Now(), root, vpn, level);
        }
        if TableNode(root, vpn, level - 1) in at {
          TreePage(Now(), TableNode(root, vpn, level - 1), lo);
        } else {
          Missing(root, vpn, level - 1);
        }
        if tab == 0 {
          ViewsKept(s0, root);
          return;
        }
        level := level - 1;
      }
      out := Done;
      ViewsKept(s0, root);
      RootReaches(root, vpn);
      if alloc {
        GrewFacts(s0, Now(), root);
        Numbers();
        WalkEnds(s0, Now(), root, vpn, lo);
      }
    }

    lemma ViewsKept(s: Memory, root: nat)
      requires Valid() && Trees(s, kpdpt) && Grew(s, Now(), root)
      ensures forall r, v: nat :: Node(r, 4, 0) in s.at && v < USERPAGES ==> SameView(s.mem, r, mem, r, v)
    {
      hide Linked, Held, Trees, Lookup, SameView;
      forall r, v: nat | Node(r, 4, 0) in s.at && v < USERPAGES ensures SameView(s.mem, r, mem, r, v) {
        ViewKept(s, Now(), kpdpt, r, v);
      }
    }

    lemma RootReaches(root: nat, vpn: nat)
      requires Valid() && vpn < USERPAGES && TableNode(root, vpn, 1) in at
      ensures Reaches(mem, root, vpn, 4, at[TableNode(root, vpn, 1)])
    {
      hide Linked, Held, Shape, Entries, Kernel, Reaches;
      TableReached(mem, at, role, root, vpn, 4);
      assert TableNode(root, vpn, 4) == Node(root, 4, 0);
      RootPage(root, vpn);
    }

    lemma Numbers()
      requires Valid()
      ensures Counted(Now(), lo)
    {
      hide Linked, Held, Shape, Entries, Kernel;
      Census(lo, mem, freelist, fl, at, role, other);
    }

    lemma RootPage(root: nat, vpn: nat)
      requires Valid() && Node(root, 4, 0) in at
      ensures TableNode(root, vpn, 4) == Node(root, 4, 0) && at[Node(root, 4, 0)] == root
    {
      assert NodeOk(at, role, |mem|, Node(root, 4, 0));
    }

    /** Without a table there are no tables below it. */
    lemma Missing(root: nat, vpn: nat, level: nat)
      requires Valid() && vpn < USERPAGES && 1 <= level <= 3 && TableNode(root, vpn, level) !in at
      ensures TableNode(root, vpn, 1) !in at
    {
      Ancestors(at, role, |mem|, root, vpn, 1);
      Ancestors(at, role, |mem|, root, vpn, 2);
    }

    /** The body of mappages' loop: one page, unless something is mapped there already. */
    method MapPage(root: nat, vpn: nat, c: nat, perm: Flags) returns (out: Outcome)
      requires Valid() && Node(root, 4, 0) in at && vpn < USERPAGES && c in other && c != kpdpt && c < |mem|
      modifies this`mem, this`freelist, this`fl, this`at, this`role, this`other
      ensures Valid() && (out == Done || out == Remap || out == OutOfMemory)
      ensures out == Remap <==> Node(root, 0, vpn) in old(at)
      ensures out == OutOfMemory <==> |old(fl)| < NewTables(old(Now()), root, vpn, vpn + 1)
      ensures out == OutOfMemory ==> fl == []
      ensures out == Done ==>
                && Gained(old(Now()), Now(), root, vpn, vpn + 1, c, perm)
                && |fl| + NewTables(old(Now()), root, vpn, vpn + 1) == |old(fl)|
      ensures out != Done ==> Grew(old(Now()), Now(), root)
    {
      hide Linked, Held, Shape, Entries, Kernel, Entry, Lookup, SameMaps, NewNodes, NewTables, AtGrew, Tables, Nodes;
      var tab;
      ghost var s0 := Now();
      if Node(root, 0, vpn) in at {
        LeafTables(s0, root, vpn);
      }
      out, tab := Walkpgdir(root, vpn, true);
      if out != Done {
        return;
      }
      ghost var s1, t := Now(), TableNode(root, vpn, 1);
      LeafStep(root, vpn);
      TreeEntry(t, vpn % ENTRIES);
      assert Node(root, 0, vpn) in at <==> Node(root, 0, vpn) in s0.at;
      hide Grew, Gained;
      if Present(mem[tab][vpn % ENTRIES]) {
        return Remap;
      }
      mem := mem[tab := mem[tab][vpn % ENTRIES := Entry(c, perm)]];
      at, role, other := at[Node(root, 0, vpn) := c], role[c := Node(root, 0, vpn)], other - {c};
      PageAdded(s1, Now(), root, vpn, c, perm, freelist, lo, kpdpt);
      GrewGained(s0, s1, Now(), root, vpn, c, perm);
    }

    /** The pages `c..c + k` are held by the kernel, and are not its own table. */
    ghost predicate Spare(c: nat, k: int)
      reads this
    {
      c + k < |mem| && forall p :: c <= p <= c + k ==> p in other && p != kpdpt
    }

    /**
     Pages for the `size` bytes from `va`, mapped to consecutive pages from `c`.  The first page that is
     mapped already is a panic; memory runs out exactly if there are fewer free pages than the tables
     before it that are missing.
     */
    method Mappages(root: nat, va: nat, size: nat, c: nat, perm: Flags) returns (out: Outcome)
      requires Valid() && Node(root, 4, 0) in at && size > 0 && va + size <= USERPAGES * PGSIZE
      requires Spare(c, (va + size - 1) / PGSIZE - va / PGSIZE)
      modifies this`mem, this`freelist, this`fl, this`at, this`role, this`other
      ensures Valid() && (out == Done || out == Remap || out == OutOfMemory)
      ensures var from, to := va / PGSIZE, (va + size - 1) / PGSIZE + 1;
              var e := First(old(at), root, from, to, true);
              && (out == OutOfMemory <==> |old(fl)| < NewTables(old(Now()), root, from, e))
              && (out == Remap <==> e < to && |old(fl)| >= NewTables(old(Now()), root, from, e))
              && c + (to - from) <= |old(mem)|
              && (out == Done ==> Gained(old(Now()), Now(), root, from, to, c, perm))
              && (out == Done ==> |fl| + NewTables(old(Now()), root, from, to) == |old(fl)|)
              && (out == Done ==> NoneIs(old(at), root, from, to, true))
              && (out != Done ==> MapStopped(old(Now()), Now(), root, from, to, c, perm))
    {
      hide Linked, Held, Trees, Gained, Spare, NewNodes, NewTables, MapStopped, First, NoneIs;
      var a, last := va / PGSIZE, (va + size - 1) / PGSIZE;
      SpareSize(c, last - a);
      out := MapRange(root, a, last, c, perm);
    }

    lemma SpareSize(c: nat, k: nat)
      requires Spare(c, k)
      ensures c + k < |mem|
    {
    }

    method MapRange(root: nat, a: nat, last: nat, c: nat, perm: Flags) returns (out: Outcome)
      requires Valid() && Node(root, 4, 0) in at && a <= last < USERPAGES && Spare(c, last - a)
      modifies this`mem, this`freelist, this`fl, this`at, this`role, this`other
      ensures Valid() && (out == Done || out == Remap || out == OutOfMemory) && c + (last - a) < |old(mem)|
      ensures var e := First(old(at), root, a, last + 1, true);
              && (out == OutOfMemory <==> |old(fl)| < NewTables(old(Now()), root, a, e))
              && (out == Remap <==> e < last + 1 && |old(fl)| >= NewTables(old(Now()), root, a, e))
      ensures out == Done ==>
                && Gained(old(Now()), Now(), root, a, last + 1, c, perm)
                && |fl| + NewTables(old(Now()), root, a, last + 1) == |old(fl)|
                && NoneIs(old(at), root, a, last + 1, true)
      ensures out != Done ==> MapStopped(old(Now()), Now(), root, a, last + 1, c, perm)
    {
      hide Linked, Held, Trees, Gained, NewNodes, NewTables, AtGrew, Nodes, First, MapStopped, Grew;
      ghost var s0 := Now();
      var k := a;
      GainedNone(s0, root, a, c, perm);
      NewNone(s0, root, a);
      while k <= last
        invariant a <= k <= last + 1 && Valid() && |mem| == |s0.mem| && kpdpt == old(kpdpt)
        invariant Gained(s0, Now(), root, a, k, c, perm)
        invariant |fl| + NewTables(s0, root, a, k) == |s0.fl|
        invariant NoneIs(s0.at, root, a, k, true)
      {
        ghost var s1 := Now();
        assert c + (k - a) in s0.other;
        GainedFacts(s0, s1, root, a, k, c, perm);
        MapNext(s0, s1, root, a, k, last + 1);
        out := MapPage(root, k, c + (k - a), perm);
        if out != Done {
          MapStops(s0, s1, Now(), root, a, k, last + 1, c, perm);
          return;
        }
        GainedFacts(s1, Now(), root, k, k + 1, c + (k - a), perm);
        GainedMore(s0, s1, Now(), root, a, k, c, perm);
        k := k + 1;
      }
      FirstIs(s0.at, root, a, last + 1, true, k);
      out := Done;
    }

    /** A page the kernel holds is filled, by memset or memmove. */
    method Fill(c: nat, page: Page)
      requires Valid() && c in other && c != kpdpt && c < |mem|
      modifies this`mem
      ensures Valid() && mem == old(mem)[c := page] && SameMaps(old(mem), at, mem, at)
    {
      hide Linked, Held, Trees;
      PageWritten(Now(), Memory(mem[c := page], at, role, fl, other), c, page, freelist, lo, kpdpt);
      mem := mem[c := page];
    }

    /** kalloc a page, fill it and map it at `vpn`. */
    method AddPage(root: nat, vpn: nat, page: Page, perm: Flags, ghost w: Source) returns (out: Outcome)
      requires Valid() && Node(root, 4, 0) in at && vpn < USERPAGES
      requires SameUse(Mapped(0, FlagsOf(Entry(0, perm)), page), Want(w, vpn))
      modifies this`mem, this`freelist, this`fl, this`at, this`role, this`other
      ensures Valid() && (out == Done || out == Remap || out == OutOfMemory)
      ensures Node(root, 0, vpn) in old(at) ==> (out == if old(fl) == [] then OutOfMemory else Remap)
      ensures Node(root, 0, vpn) !in old(at) ==>
                out == if |old(fl)| < NewNodes(old(Now()), root, vpn, vpn + 1) then OutOfMemory else Done
      ensures out == Done ==>
                && Backed(old(Now()), Now(), root, vpn, vpn + 1, w)
                && |fl| + NewNodes(old(Now()), root, vpn, vpn + 1) == |old(fl)|
      ensures out != Done ==> Stalled(old(Now()), Now())
    {
      hide Linked, Held, Shape, Entries, Lookup, Want, SameMaps, MapsExcept, NewTables, NewNodes, AtGrew, Nodes,
           Stalled, Grew, Gained;
      var c;
      ghost var s0 := Now();
      AddCost(s0, root, vpn);
      StalledSelf(s0);
      out, c := Kalloc();
      if out != Done {
        return;
      }
      StillTrees(s0, c);
      ghost var s1 := Now();
      Fill(c, page);
      ghost var s2 := Now();
      SameCost(s0, s2, root, vpn);
      out := MapPage(root, vpn, c, perm);
      if out == Done {
        assert FlagsOf(Entry(c, perm)) == FlagsOf(Entry(0, perm));
        BackedOnce(s0, s1, s2, Now(), root, vpn, c, page, perm, w);
      } else {
        StalledOnce(s0, s1, s2, Now(), root, c, page);
      }
    }

    lemma AddCost(s: Memory, root: nat, vpn: nat)
      requires Trees(s, kpdpt) && vpn < USERPAGES
      ensures if Node(root, 0, vpn) in s.at then NewTables(s, root, vpn, vpn + 1) == 0
              else NewNodes(s, root, vpn, vpn + 1) == NewTables(s, root, vpn, vpn + 1) + 1
    {
      hide NewTables, NewNodes, Shape, Entries, Kernel;
      if Node(root, 0, vpn) in s.at {
        LeafTables(s, root, vpn);
      } else {
        NewOne(s, root, vpn);
      }
    }

    lemma SameCost(s: Memory, s': Memory, root: nat, vpn: nat)
      requires s'.at == s.at
      ensures NewTables(s', root, vpn, vpn + 1) == NewTables(s, root, vpn, vpn + 1)
    {
    }

    lemma StillTrees(s0: Memory, c: nat)
      requires Trees(s0, kpdpt) && Taken(s0, Now(), c)
      ensures Trees(Now(), kpdpt) && c != kpdpt && c in other
    {
    }

    /**
     Grows an address space from `oldsz` to `newsz` bytes with zeroed pages.  The first page that is
     mapped already is a panic, after a page has been taken for it; memory runs out exactly if there are
     fewer free pages than that takes.
     */
    method Allocuvm(root: nat, oldsz: nat, newsz: nat) returns (out: Outcome, sz: nat)
      requires Valid() && Node(root, 4, 0) in at && (newsz <= USERPAGES * PGSIZE || KERNBASE <= newsz)
      modifies this`mem, this`freelist, this`fl, this`at, this`role, this`other
      ensures Valid() && (out == Done || out == Remap || out == OutOfMemory)
      ensures newsz >= KERNBASE ==> out == Done && sz == 0 && Now() == old(Now())
      ensures newsz < oldsz && newsz < KERNBASE ==> out == Done && sz == oldsz && Now() == old(Now())
      ensures oldsz <= newsz < KERNBASE ==>
                var from, to := RoundUp(oldsz), RoundUp(newsz);
                var e := First(old(at), root, from, to, true);
                var cost := NewNodes(old(Now()), root, from, e) + if e < to then 1 else 0;
                && (out == OutOfMemory <==> |old(fl)| < cost)
                && (out == Remap <==> e < to && |old(fl)| >= cost)
                && (out == Done ==> sz == newsz && Backed(old(Now()), Now(), root, from, to, Zeroes))
                && (out == Done ==> |fl| + cost == |old(fl)| && NoneIs(old(at), root, from, to, true))
                && (out != Done ==> Stopped(old(Now()), Now(), root, from, to, Zeroes))
    {
      hide Linked, Held, Trees, Backed, NewNodes, NewTables, Nodes, AtGrew, First, Stopped, Stalled, Part;
      if newsz >= KERNBASE {
        return Done, 0;
      }
      if newsz < oldsz {
        return Done, oldsz;
      }
      ghost var s0, to := Now(), RoundUp(newsz);
      var a := RoundUp(oldsz);
      BackedNone(s0, root, a, Zeroes);
      NewNone(s0, root, a);
      while a * PGSIZE < newsz
        invariant RoundUp(oldsz) <= a <= to && Valid()
        invariant Backed(s0, Now(), root, RoundUp(oldsz), a, Zeroes)
        invariant |fl| + NewNodes(s0, root, RoundUp(oldsz), a) == |s0.fl|
        invariant NoneIs(s0.at, root, RoundUp(oldsz), a, true)
      {
        ghost var s1 := Now();
        BackedFacts(s0, s1, root, RoundUp(oldsz), a, Zeroes);
        GrowNext(s0, s1, root, RoundUp(oldsz), a, to);
        out := AddPage(root, a, ZERO_PAGE, PTE_W + PTE_U, Zeroes);
        if out != Done {
          Stops(s0, s1, Now(), root, RoundUp(oldsz), a, to, Zeroes);
          return out, 0;
        }
        BackedMore(s0, s1, Now(), root, RoundUp(oldsz), a, Zeroes);
        a := a + 1;
      }
      FirstIs(s0.at, root, RoundUp(oldsz), to, true, a);
      return Done, newsz;
    }

    /** The body of deallocuvm's loop: the page at `vpn`, if there is one, is freed. */
    method RemovePage(root: nat, vpn: nat)
      requires Valid() && Node(root, 4, 0) in at && vpn < USERPAGES
      modifies this`mem, this`freelist, this`fl, this`at, this`role, this`other
      ensures Valid() && Lost(old(Now()), Now(), root, vpn, vpn + 1)
    {
      hide Linked, Held, Shape, Entries, Kernel, Lost;
      ghost var s0 := Now();
      var out, tab := Walkpgdir(root, vpn, false);
      if tab != 0 {
        ghost var t, leaf := TableNode(root, vpn, 1), Node(root, 0, vpn);
        LeafStep(root, vpn);
        TreeEntry(t, vpn % ENTRIES);
        Apart(s0, t, leaf);
        if Present(mem[tab][vpn % ENTRIES]) {
          var c := PageOf(mem[tab][vpn % ENTRIES]);
          TreePage(s0, leaf, lo);
          HeldOutside(lo, |mem|, fl, role, other, c);
          at, role, other := at - {leaf}, role - {c}, other + {c};
          var ok := Kfree(c);
          ghost var page := mem[tab][vpn % ENTRIES := 0];
          TreeWrite(Now(), tab, page, freelist, lo);
          mem := mem[tab := mem[tab][vpn % ENTRIES := 0]];
          assert mem == s0.mem[tab := s0.mem[tab][vpn % ENTRIES := 0]][c := mem[c]];
          assert other == s0.other;
          PageRemoved(s0, Now(), root, vpn, c, mem[c], old(freelist), lo, kpdpt);
        } else {
          LostNothing(s0, root, vpn);
        }
      } else {
        NoTable(s0, root, vpn, lo);
        LostNothing(s0, root, vpn);
      }
    }

    /** Shrinks an address space from `oldsz` to `newsz` bytes. */
    method Deallocuvm(root: nat, oldsz: nat, newsz: nat) returns (sz: nat)
      requires Valid() && Node(root, 4, 0) in at && oldsz <= USERPAGES * PGSIZE
      modifies this`mem, this`freelist, this`fl, this`at, this`role, this`other
      ensures Valid()
      ensures newsz >= oldsz ==> sz == oldsz && Now() == old(Now())
      ensures newsz < oldsz ==> sz == newsz && Lost(old(Now()), Now(), root, RoundUp(newsz), RoundUp(oldsz))
      ensures forall p :: p in fl <==> p in old(fl) || (p in old(role) && old(role)[p] !in at)
    {
      hide Linked, Held, Trees, Lost;
      if newsz >= oldsz {
        FreedNow(Now());
        return oldsz;
      }
      ghost var s0 := Now();
      var a := RoundUp(newsz);
      LostNone(s0, root, a);
      while a * PGSIZE < oldsz
        invariant RoundUp(newsz) <= a <= RoundUp(oldsz) && Valid()
        invariant Lost(s0, Now(), root, RoundUp(newsz), a)
      {
        ghost var s1 := Now();
        LostFacts(s0, s1, root, RoundUp(newsz), a);
        RemovePage(root, a);
        LostMore(s0, s1, Now(), root, RoundUp(newsz), a);
        a := a + 1;
      }
      LostFacts(s0, Now(), root, RoundUp(newsz), a);
      FreedNow(s0);
      return newsz;
    }

    lemma FreedNow(s: Memory)
      requires Valid() && Trees(s, kpdpt) && Held(lo, |s.mem|, s.fl, s.role, s.other) && |mem| == |s.mem|
      requires other == s.other && forall n :: n in at ==> n in s.at && at[n] == s.at[n]
      ensures forall p :: p in fl <==> p in s.fl || (p in s.role && s.role[p] !in at)
    {
      hide Held, Shape, Entries, Kernel, Linked;
      FreedExactly(s, Now(), lo);
    }

    // ---------- freeing a whole address space ----------

    /** The invariant while tables are being freed: those in `broken` have entries that dangle. */
    ghost predicate Freeing(broken: set<Node>)
      reads this
    {
      Pool() && Shape(at, role, |mem|) && Entries(mem, at, broken)
    }

    /** A node without children is freed. */
    method FreeNode(ghost n: Node, p: nat, ghost broken: set<Node>)
      requires Freeing(broken) && n in at && at[n] == p && (n.level == 4 || Parent(n) in broken)
      requires forall m :: m in at && m.level < 4 ==> Parent(m) != n
      modifies this`mem, this`freelist, this`fl, this`at, this`role, this`other
      ensures Freeing(broken) && Kept(old(Now()), Now()) && at == old(at) - {n}
    {
      hide Linked, Held, Shape, Entries, Parent;
      ghost var s0 := Now();
      TreePage(s0, n, lo);
      Drop(mem, at, role, n, broken);
      HeldOutside(lo, |mem|, fl, role, other, p);
      at, role, other := at - {n}, role - {p}, other + {p};
      ghost var mem1 := mem;
      var ok := Kfree(p);
      assert other == s0.other;
      OutsideTrees(mem1, broken);
    }

    /** The pages of the trees are as in `mem0`. */
    lemma OutsideTrees(mem0: seq<Page>, broken: set<Node>)
      requires Shape(at, role, |mem|) && |mem0| == |mem| && Entries(mem0, at, broken)
      requires forall p :: p in role && p < |mem| ==> mem[p] == mem0[p]
      ensures Entries(mem, at, broken)
    {
      hide Entries;
      forall n | n in at && at[n] < |mem| ensures mem[at[n]] == mem0[at[n]] {
        assert NodeOk(at, role, |mem|, n);
      }
      PagesOutside(mem0, mem, at, broken);
    }

    /** The loops of freevm: the pages under each entry, then the table itself. */
    method FreeTable(ghost n: Node, p: nat, level: nat, ghost broken: set<Node>)
      requires Freeing(broken) && n in at && at[n] == p && n.level == level && 1 <= level <= 4
      requires (level == 4 || Parent(n) in broken) && forall b :: b in broken ==> b.level > level
      modifies this`mem, this`freelist, this`fl, this`at, this`role, this`other
      ensures Freeing(broken) && Kept(old(Now()), Now()) && at == Pruned(old(at), n)
      decreases level
    {
      hide Linked, Held, Shape, Entries, EntryOk, Parent, Child, Pruned, Without, Kept, Present, PageOf;
      ghost var s0 := Now();
      StartFreeing(n, broken);
      var i := 0;
      while i < Width(level)
        invariant 0 <= i <= Width(level) && Freeing(broken + {n}) && Kept(s0, Now())
        invariant at == Without(s0.at, n, i) && n in at && at[n] == p && p < |mem|
        invariant forall j :: i <= j < Width(level) ==> EntryOk(mem, at, n, j)
      {
        ghost var s1 := Now();
        ghost var c := Child(n, i);
        BelowEntry(n, i, broken);
        if Present(mem[p][i]) {
          var q := PageOf(mem[p][i]);
          if level == 1 {
            PrunedOnce(at, role, |mem|, c);
            FreeNode(c, q, broken + {n});
          } else {
            FreeTable(c, q, level - 1, broken + {n});
          }
        } else {
          PruneNothing(at, role, |mem|, c);
          KeptSelf(s1);
        }
        KeptTwice(s0, s1, Now());
        PruneNext(s0.at, n, i);
        NextEntries(s1, n, i);
        i := i + 1;
      }
      ghost var s2 := Now();
      LastFreed(s0, n, broken);
      FreeNode(n, p, broken + {n});
      Finished(n, broken);
      KeptTwice(s0, s2, Now());
    }

    lemma StartFreeing(n: Node, broken: set<Node>)
      requires Freeing(broken) && n in at && n.level > 0 && n !in broken
      ensures Freeing(broken + {n}) && Kept(Now(), Now()) && at == Without(at, n, 0) && at[n] < |mem|
      ensures forall j :: 0 <= j < Width(n.level) ==> EntryOk(mem, at, n, j)
    {
      NoneGone(at, n);
      assert NodeOk(at, role, |mem|, n);
    }

    lemma BelowEntry(n: Node, i: nat, broken: set<Node>)
      requires n in at && at[n] < |mem| && 0 < n.level <= 4 && i < ENTRIES && EntryOk(mem, at, n, i)
      requires forall b :: b in broken ==> b.level > n.level
      ensures Present(mem[at[n]][i]) <==> Child(n, i) in at
      ensures Present(mem[at[n]][i]) ==> at[Child(n, i)] == PageOf(mem[at[n]][i])
      ensures Child(n, i).level == n.level - 1 && Parent(Child(n, i)) == n
      ensures forall b :: b in broken + {n} ==> b.level > n.level - 1
    {
      ParentOfChild(n, i);
    }

    lemma NextEntries(s1: Memory, n: Node, i: nat)
      requires n in s1.at && s1.at[n] < |s1.mem| && 0 < n.level <= 4 && i < Width(n.level)
      requires Kept(s1, Now()) && Shape(at, role, |mem|) && at == Pruned(s1.at, Child(n, i))
      requires forall j :: i <= j < Width(n.level) ==> EntryOk(s1.mem, s1.at, n, j)
      ensures n in at && at[n] == s1.at[n]
      ensures forall j :: i + 1 <= j < Width(n.level) ==> EntryOk(mem, at, n, j)
    {
      hide EntryOk;
      StillThere(s1.at, n, i);
      assert NodeOk(at, role, |mem|, n);
      forall j | i + 1 <= j < Width(n.level) ensures EntryOk(mem, at, n, j) {
        LaterEntries(s1.mem, s1.at, mem, at, n, i, j);
      }
    }

    lemma LastFreed(s0: Memory, n: Node, broken: set<Node>)
      requires Freeing(broken + {n}) && at == Without(s0.at, n, Width(n.level))
      requires Shape(s0.at, s0.role, |s0.mem|) && n in s0.at && n.level > 0
      ensures at - {n} == Pruned(s0.at, n)
      ensures forall m :: m in at && m.level < 4 ==> Parent(m) != n
    {
      hide Shape;
      AllGone(s0.at, s0.role, |s0.mem|, n, at);
    }

    lemma Finished(n: Node, broken: set<Node>)
      requires Freeing(broken + {n}) && n !in at
      ensures Freeing(broken)
    {
    }

    /** Frees an address space: its pages, its tables and its root, and nothing else. */
    method Freevm(root: nat)
      requires Valid() && Node(root, 4, 0) in at
      modifies this`mem, this`freelist, this`fl, this`at, this`role, this`other
      ensures Valid() && other == old(other)
      ensures forall n :: n in at <==> n in old(at) && n.root != root
      ensures forall n :: n in at ==> at[n] == old(at)[n]
      ensures forall p :: p in fl <==> p in old(fl) || (p in old(role) && old(role)[p].root == root)
      ensures forall r, v: nat :: r != root ==> Lookup(mem, at, r, v) == Lookup(old(mem), old(at), r, v)
    {
      hide Linked, Held, Shape, Entries, Pruned, Lookup, Kept;
      ghost var s0 := Now();
      RootPage(root, 0);
      FreeTable(Node(root, 4, 0), root, 4, {});
      SpaceGone(s0, root);
      FreedNow(s0);
      RootsOf(s0, root);
    }

    lemma SpaceGone(s0: Memory, root: nat)
      requires Freeing({}) && Kept(s0, Now()) && at == Pruned(s0.at, Node(root, 4, 0))
      requires Trees(s0, kpdpt) && Node(root, 4, 0) in s0.at
      ensures Valid() && |mem| == |s0.mem| && other == s0.other
      ensures forall n :: n in at <==> n in s0.at && n.root != root
      ensures forall n :: n in at ==> at[n] == s0.at[n]
      ensures forall r, v: nat :: r != root ==> Lookup(mem, at, r, v) == Lookup(s0.mem, s0.at, r, v)
    {
      hide Linked, Held, Entries, Entry, Under;
      forall n | n in s0.at ensures Under(n, Node(root, 4, 0)) <==> n.root == root {
        UnderRoot(s0.at, s0.role, |s0.mem|, n, Node(root, 4, 0));
      }
      forall n | n in at ensures at[n] < |mem| && mem[at[n]] == s0.mem[at[n]] {
        assert NodeOk(at, role, |mem|, n);
      }
    }

    lemma RootsOf(s: Memory, root: nat)
      requires Shape(s.at, s.role, |s.mem|)
      requires forall n :: n in at <==> n in s.at && n.root != root
      ensures forall p :: p in s.role ==> (s.role[p] !in at <==> s.role[p].root == root)
    {
    }

    /** An address space with the kernel's half and no user pages. */
    method Setupkvm() returns (out: Outcome, d: nat)
      requires Valid()
      modifies this`mem, this`freelist, this`fl, this`at, this`role, this`other
      ensures Valid()
      ensures out == Done || (out == OutOfMemory && fl == [] && Now() == old(Now()))
      ensures out == Done ==> NewSpace(old(Now()), Now(), d) && |old(fl)| == |fl| + 1
    {
      hide Linked, Held, Shape, Entries, Kernel, NewSpace, Entry;
      ghost var s0 := Now();
      out, d := Kalloc();
      if out != Done {
        return;
      }
      ghost var s1 := Now();
      mem := mem[d := ZERO_PAGE];
      mem := mem[d := mem[d][KERNEL_ENTRY := Entry(kpdpt, PTE_W)]];
      at, role, other := at[Node(d, 4, 0) := d], role[d := Node(d, 4, 0)], other - {d};
      RootAdded(s0, s1, Now(), d, mem[d], freelist, lo, kpdpt);
    }

    /** The page that `vpn` maps to, with its flags, as copyuvm reads them from the tables. */
    method ReadPage(root: nat, vpn: nat) returns (ok: bool, flags: Flags, page: Page)
      requires Valid() && Node(root, 4, 0) in at && vpn < USERPAGES
      modifies this`mem, this`freelist, this`fl, this`at, this`role, this`other
      ensures Now() == old(Now()) && freelist == old(freelist)
      ensures ok <==> Lookup(mem, at, root, vpn).Mapped?
      ensures ok ==> flags % 2 == 1
      ensures ok ==> Lookup(mem, at, root, vpn) == Mapped(Lookup(mem, at, root, vpn).frame, flags, page)
    {
      hide Linked, Held, Shape, Entries, Kernel;
      flags, page := 0, ZERO_PAGE;
      var out, tab := Walkpgdir(root, vpn, false);
      ghost var t, leaf := TableNode(root, vpn, 1), Node(root, 0, vpn);
      if tab == 0 {
        NoTable(Now(), root, vpn, lo);
        return false, flags, page;
      }
      LeafStep(root, vpn);
      TreeEntry(t, vpn % ENTRIES);
      var e := mem[tab][vpn % ENTRIES];
      if !Present(e) {
        return false, flags, page;
      }
      TreePage(Now(), leaf, lo);
      return true, FlagsOf(e), mem[PageOf(e)];
    }

    /**
     A new address space with copies of the user pages below `sz`, from page 1 on.  The first page that is
     not there is a panic; memory runs out exactly if there are fewer free pages than a root and the
     pages and tables of an empty address space up to it.
     */
    method Copyuvm(root: nat, sz: nat) returns (out: Outcome, d: nat)
      requires Valid() && Node(root, 4, 0) in at && sz < 0x1_0000_0000
      modifies this`mem, this`freelist, this`fl, this`at, this`role, this`other
      ensures Valid() && (out == NotPresent || out == Done || out == OutOfMemory)
      ensures var e := First(old(at), root, 1, RoundUp(sz), false);
              && (out == OutOfMemory <==> |old(fl)| < 1 + Fresh(1, e))
              && (out == NotPresent <==> e < RoundUp(sz) && |old(fl)| >= 1 + Fresh(1, e))
              && (e < RoundUp(sz) ==> Lookup(old(mem), old(at), root, e) == Unmapped)
              && (out == Done ==> |fl| + 1 + Fresh(1, e) == |old(fl)|)
      ensures out == Done ==> Copied(old(Now()), Now(), root, d, RoundUp(sz)) && other == old(other)
      ensures out != Done ==> Unfinished(old(Now()), Now(), root, RoundUp(sz))
    {
      hide Linked, Held, Shape, Entries, Kernel, NewSpace, Lookup, Copied, Fresh, First, Unfinished;
      ghost var s0, e := Now(), First(at, root, 1, RoundUp(sz), false);
      FirstStops(at, root, 1, RoundUp(sz), false);
      FirstUnmapped(root, e);
      NotBegun(s0, root, RoundUp(sz));
      out, d := Setupkvm();
      if out != Done {
        return;
      }
      ghost var s1 := Now();
      SpaceFacts(s0, s1, root, d);
      out := CopyPages(root, d, sz, s0, e);
    }

    lemma FirstUnmapped(root: nat, e: nat)
      requires Valid()
      ensures Node(root, 0, e) !in at ==> Lookup(mem, at, root, e) == Unmapped
    {
      hide Linked, Held, Entries, Kernel, Shape, Lookup;
      LookupIs(Now(), root, e);
    }

    /** copyuvm's loop, from the original `root` as it was in `s0` to the new address space `d`. */
    method CopyPages(root: nat, d: nat, sz: nat, ghost s0: Memory, ghost e: nat) returns (out: Outcome)
      requires Valid() && Node(root, 4, 0) in at && Node(d, 4, 0) in at && root != d && sz < 0x1_0000_0000
      requires Shape(s0.at, s0.role, |s0.mem|) && NewSpace(s0, Now(), d)
      requires e == First(s0.at, root, 1, RoundUp(sz), false)
      modifies this`mem, this`freelist, this`fl, this`at, this`role, this`other
      ensures Valid() && (out == NotPresent || out == Done || out == OutOfMemory)
      ensures out == OutOfMemory <==> |old(fl)| < Fresh(1, e)
      ensures out == NotPresent <==> e < RoundUp(sz) && |old(fl)| >= Fresh(1, e)
      ensures out == Done ==> Copied(s0, Now(), root, d, RoundUp(sz)) && other == s0.other
      ensures out == Done ==> |fl| + Fresh(1, e) == |old(fl)|
      ensures out != Done ==> Unfinished(s0, Now(), root, RoundUp(sz))
    {
      hide Linked, Held, Trees, Backed, NewSpace, Lookup, Copied, NewNodes, NewTables, Nodes, AtGrew, First, NoneIs,
           Stalled, Stopped, Part, Unfinished, Fresh;
      ghost var s1, w, to := Now(), CopyOf(s0, root), RoundUp(sz);
      var i := 1;
      BackedNone(s1, d, i, w);
      NewNone(s1, d, i);
      NoneMore(s0.at, root, 1, 1, false);
      while i * PGSIZE < sz
        invariant 1 <= i && (i <= to || i == 1) && Valid()
        invariant Backed(s1, Now(), d, 1, i, w) && |fl| + NewNodes(s1, d, 1, i) == |s1.fl|
        invariant NoneIs(s0.at, root, 1, i, false)
      {
        ghost var s2 := Now();
        BackedFacts(s1, s2, d, 1, i, w);
        BackedPart(s1, s2, d, 1, i, w);
        CopyNext(s0, s1, s2, root, d, i, to);
        CopyCost(s0, s1, s2, d, i, e);
        NoneMore(s0.at, root, 1, i, false);
        var ok, flags, page := ReadPage(root, i);
        if !ok {
          CopyStops(s0, s1, s2, root, d, i, to);
          return NotPresent;
        }
        out := AddPage(d, i, page, flags, w);
        if out != Done {
          Stops(s1, s2, Now(), d, 1, i, to, w);
          CopyStops(s0, s1, Now(), root, d, i, to);
          return;
        }
        BackedMore(s1, s2, Now(), d, 1, i, w);
        i := i + 1;
      }
      out := Done;
      CopyEnds(s0, s1, Now(), root, d, i, to);
    }

    lemma Unchanged()
      ensures forall r :: Grew(Now(), Now(), r)
    {
    }

    lemma TreeEntry(n: Node, i: nat)
      requires Trees(Now(), kpdpt) && n in at && n.level > 0 && i < Width(n.level)
      ensures at[n] < |mem| && at[n] in role && EntryOk(mem, at, n, i)
    {
      assert NodeOk(at, role, |mem|, n);
    }
  }
}
