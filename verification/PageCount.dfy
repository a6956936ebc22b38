/**
 How many pages it takes to map a range of an address space (vm.c): the user pages, and the
 tables of the three levels below the root that lead to them.
 */
module PageCount {

  import opened Basics
  import opened PageTables

  /** The prefix at `level` of the nodes that lead to a virtual page. */
  function Cut(vpn: nat, level: nat): nat {
    if level == 0 then vpn else Cut(vpn, level - 1) / ENTRIES
  }

  lemma Cuts(v: nat)
    ensures Cut(v, 0) == v && Cut(v, 1) == v / ENTRIES
    ensures Cut(v, 2) == v / ENTRIES / ENTRIES && Cut(v, 3) == v / ENTRIES / ENTRIES / ENTRIES
  {
    assert Cut(v, 1) == Cut(v, 0) / ENTRIES;
    assert Cut(v, 2) == Cut(v, 1) / ENTRIES;
  }

  lemma {:induction false} CutGrows(v: nat, w: nat, level: nat)
    requires v <= w
    ensures Cut(v, level) <= Cut(w, level) <= Cut(v, level) + (w - v)
  {
    if level > 0 {
      CutGrows(v, w, level - 1);
    }
  }

  /** The nodes of one level with prefixes from `from` up to but not `to`. */
  ghost function Row(root: nat, level: nat, from: nat, to: nat): (ns: set<Node>)
    requires from <= to
    ensures |ns| == to - from
    ensures forall n :: n in ns <==> n.root == root && n.level == level && from <= n.prefix < to
  {
    if from == to then {} else Row(root, level, from, to - 1) + {Node(root, level, to - 1)}
  }

  /** The nodes of one level that lead to the pages `from..to`. */
  ghost function Across(root: nat, level: nat, from: nat, to: nat): (ns: set<Node>)
    ensures |ns| == Span(level, from, to)
    ensures forall n :: n in ns <==>
              from < to && n.root == root && n.level == level && Cut(from, level) <= n.prefix <= Cut(to - 1, level)
  {
    if from >= to then {}
    else
      CutGrows(from, to - 1, level);
      Row(root, level, Cut(from, level), Cut(to - 1, level) + 1)
  }

  /** How many there are. */
  function Span(level: nat, from: nat, to: nat): nat {
    if from >= to then 0
    else
      CutGrows(from, to - 1, level);
      Cut(to - 1, level) + 1 - Cut(from, level)
  }

  /** The tables below the root that lead to the pages `from..to`. */
  ghost function Tables(root: nat, from: nat, to: nat): set<Node> {
    Across(root, 1, from, to) + Across(root, 2, from, to) + Across(root, 3, from, to)
  }

  /** Those tables and the pages themselves. */
  ghost function Nodes(root: nat, from: nat, to: nat): set<Node> {
    Across(root, 0, from, to) + Tables(root, from, to)
  }

  /** How many pages a range takes in an empty address space. */
  function Fresh(from: nat, to: nat): nat {
    Span(0, from, to) + Span(1, from, to) + Span(2, from, to) + Span(3, from, to)
  }

  lemma FreshCount(root: nat, from: nat, to: nat)
    ensures |Nodes(root, from, to)| == Fresh(from, to)
  {
    hide Cut, Span;
    var a, b, c, d := Across(root, 0, from, to), Across(root, 1, from, to), Across(root, 2, from, to),
                      Across(root, 3, from, to);
    assert b !! c && (b + c) !! d && a !! (b + c + d);
  }

  /** Four pages for each one mapped are always enough. */
  lemma FourEach(root: nat, from: nat, to: nat)
    requires from <= to
    ensures Fresh(from, to) <= 4 * (to - from)
  {
    if from < to {
      CutGrows(from, to - 1, 0);
      CutGrows(from, to - 1, 1);
      CutGrows(from, to - 1, 2);
      CutGrows(from, to - 1, 3);
    }
    hide Cut;
  }

  /** One page more: its own node, and the tables on its way. */
  lemma AcrossNext(root: nat, level: nat, from: nat, v: nat)
    requires from <= v
    ensures Across(root, level, from, v + 1) == Across(root, level, from, v) + {Node(root, level, Cut(v, level))}
  {
    hide Cut, Span;
    CutGrows(from, v, level);
    if from < v {
      CutGrows(v - 1, v, level);
      CutGrows(from, v - 1, level);
    }
  }

  lemma AcrossJoin(root: nat, level: nat, from: nat, v: nat)
    requires from <= v
    ensures Across(root, level, from, v + 1) == Across(root, level, from, v) + Across(root, level, v, v + 1)
  {
    hide Cut, Across;
    AcrossNone(root, v);
    AcrossNext(root, level, from, v);
    AcrossNext(root, level, v, v);
  }

  lemma Regroup<T>(a: set<T>, b: set<T>, c: set<T>, a': set<T>, b': set<T>, c': set<T>)
    ensures (a + a') + (b + b') + (c + c') == (a + b + c) + (a' + b' + c')
  {
  }

  lemma NodesNext(root: nat, from: nat, v: nat)
    requires from <= v
    ensures Tables(root, from, v + 1) == Tables(root, from, v) + Tables(root, v, v + 1)
    ensures Nodes(root, from, v + 1) == Nodes(root, from, v) + Nodes(root, v, v + 1)
  {
    hide Tables, Across;
    TablesNext(root, from, v);
    AcrossJoin(root, 0, from, v);
    var a, a' := Across(root, 0, from, v), Across(root, 0, v, v + 1);
    Regroup(a, Tables(root, from, v), {}, a', Tables(root, v, v + 1), {});
  }

  lemma TablesNext(root: nat, from: nat, v: nat)
    requires from <= v
    ensures Tables(root, from, v + 1) == Tables(root, from, v) + Tables(root, v, v + 1)
  {
    hide Cut, Across;
    AcrossJoin(root, 1, from, v);
    AcrossJoin(root, 2, from, v);
    AcrossJoin(root, 3, from, v);
    Regroup(Across(root, 1, from, v), Across(root, 2, from, v), Across(root, 3, from, v),
            Across(root, 1, v, v + 1), Across(root, 2, v, v + 1), Across(root, 3, v, v + 1));
  }

  lemma AcrossNone(root: nat, v: nat)
    ensures forall level {:trigger Across(root, level, v, v)} :: Across(root, level, v, v) == {}
  {
  }

  lemma NodesNone(root: nat, v: nat)
    ensures Tables(root, v, v) == {} && Nodes(root, v, v) == {}
  {
  }

  /** The nodes of one page are the tables of its walk and its leaf. */
  lemma NodesOne(root: nat, v: nat)
    ensures Tables(root, v, v + 1) == {TableNode(root, v, 1), TableNode(root, v, 2), TableNode(root, v, 3)}
    ensures Nodes(root, v, v + 1) == Tables(root, v, v + 1) + {Node(root, 0, v)}
    ensures Node(root, 0, v) !in Tables(root, v, v + 1)
  {
    hide Cut, Across;
    Cuts(v);
    AcrossNone(root, v);
    AcrossNext(root, 0, v, v);
    AcrossNext(root, 1, v, v);
    AcrossNext(root, 2, v, v);
    AcrossNext(root, 3, v, v);
  }

  lemma LeavesApart(root: nat, from: nat, to: nat, from': nat, to': nat)
    ensures Across(root, 0, from, to) !! Tables(root, from', to')
    ensures Nodes(root, from, to) == Across(root, 0, from, to) + Tables(root, from, to)
  {
    hide Span, Cut;
  }

  /** Which pages and which levels a range's nodes have. */
  lemma NodesOf(root: nat, from: nat, to: nat)
    ensures forall v: nat :: Node(root, 0, v) in Nodes(root, from, to) <==> from <= v < to
    ensures forall n :: n in Nodes(root, from, to) ==> n.root == root && n.level < 4
    ensures forall n :: n in Tables(root, from, to) ==> n.root == root && 0 < n.level < 4
  {
    hide Span;
  }

  lemma AcrossWithin(root: nat, level: nat, from: nat, mid: nat, to: nat)
    requires mid <= to
    ensures Across(root, level, from, mid) <= Across(root, level, from, to)
  {
    hide Cut, Span;
    if from < mid {
      CutGrows(mid - 1, to - 1, level);
    }
  }

  /** A longer range has all the nodes of a shorter one. */
  lemma NodesWithin(root: nat, from: nat, mid: nat, to: nat)
    requires mid <= to
    ensures Tables(root, from, mid) <= Tables(root, from, to) && Nodes(root, from, mid) <= Nodes(root, from, to)
  {
    hide Cut, Across;
    AcrossWithin(root, 0, from, mid, to);
    AcrossWithin(root, 1, from, mid, to);
    AcrossWithin(root, 2, from, mid, to);
    AcrossWithin(root, 3, from, mid, to);
  }

  // ---------- what is new ----------

  /** Adding first `a` and then `b` adds as much as adding both. */
  lemma AddedTwice<T>(keys: set<T>, a: set<T>, b: set<T>)
    ensures |(a + b) - keys| == |a - keys| + |b - (keys + a)|
  {
    assert (a + b) - keys == (a - keys) + (b - (keys + a));
  }

  lemma Added<T>(keys: set<T>, a: set<T>)
    ensures |keys + a| == |keys| + |a - keys|
  {
    assert keys + a == keys + (a - keys);
  }

  lemma AddedMore<T>(keys: set<T>, a: set<T>, b: set<T>)
    requires a <= b
    ensures |a - keys| <= |b - keys|
  {
    SubsetSize(a - keys, b - keys);
  }

  lemma AddedApart<T>(keys: set<T>, a: set<T>, b: set<T>, l: set<T>)
    requires b !! l
    ensures b - (keys + a) == b - (keys + (l + a))
  {
  }

  lemma AddedOne<T>(keys: set<T>, a: set<T>, x: T)
    requires x !in a && x !in keys
    ensures |(a + {x}) - keys| == |a - keys| + 1
  {
    assert (a + {x}) - keys == (a - keys) + {x};
  }
}
