/** The pages after a restructuring step hold the restructured tree. */
module StoredOps {
  import opened Types
  import opened SortedSeq
  import opened Weaving
  import opened Trees
  import opened Restructure
  import opened Layout
  import opened PageTrees

  /** Saving the top node of a tree whose subtrees are stored. */
  lemma {:induction false} TopSaved(nodes: Pages, nodes': Pages, f: multiset<Address>, t: Tree)
    requires AllStored(nodes, t.children) && Owned(nodes, f, t)
    requires nodes'.Keys == nodes.Keys && SameExcept(nodes, nodes', {t.addr}) && TopStored(nodes', t)
    ensures Stored(nodes', t) && Owned(nodes', f, t) && Agree(nodes, nodes', f)
  {
    var rest := f + AddrsOf(t.children);
    assert multiset(nodes.Keys) == multiset{t.addr} + rest;
    OnlyOnce(nodes.Keys, t.addr, rest);
    assert forall e :: e in f || e in AddrsOf(t.children) ==> e in rest;
    AllStoredFrame(nodes, nodes', t.children);
  }

  /** Saving a child as it is. */
  lemma {:induction false} ChildSaved(nodes: Pages, nodes': Pages, f: multiset<Address>, t: Tree, i: nat)
    requires Stored(nodes, t) && Owned(nodes, f, t) && i <= |t.entries| && |t.children| == |t.entries| + 1
    requires nodes'.Keys == nodes.Keys && SameExcept(nodes, nodes', {t.children[i].addr}) && TopStored(nodes', t.children[i])
    ensures Stored(nodes', t) && Owned(nodes', f, t) && Agree(nodes, nodes', f)
  {
    var c := t.children[i];
    Descend(nodes, f, t, i);
    ChildStored(nodes, t, i);
    TopSaved(nodes, nodes', Around(f, t, i), c);
    Ascend(nodes, nodes', f, t, i, c);
    assert Edit(t, i, i, [], [c]) == t;
  }

  lemma {:induction false} StoredCut(nodes: Pages, ts: seq<Tree>, lo: nat, hi: nat)
    requires AllStored(nodes, ts)
    ensures AllStored(nodes, Cut(ts, lo, hi))
  {
  }

  lemma {:induction false} SplitStored(nodes: Pages, nodes': Pages, f: multiset<Address>, t: Tree, i: nat, a: Address, h: nat)
    requires Shape(t, h) && 0 < h && i <= |t.entries| < CAPACITY && |t.children[i].entries| == CAPACITY
    requires AllStored(nodes, t.children) && Owned(nodes, f, t)
    requires a !in nodes && nodes'.Keys == nodes.Keys + {a} && SameExcept(nodes, nodes', {t.addr, t.children[i].addr})
    requires TopStored(nodes', SplitChild(t, i, a))
    requires TopStored(nodes', LowHalf(t.children[i])) && TopStored(nodes', HighHalf(t.children[i], a))
    ensures Stored(nodes', SplitChild(t, i, a)) && Owned(nodes', f, SplitChild(t, i, a)) && Agree(nodes, nodes', f)
  {
    var c := t.children[i];
    var ds := [LowHalf(c), HighHalf(c, a)];
    OneTop(nodes, nodes', f, t, i);
    assert Stored(nodes, c);
    AllStoredFrame(nodes, nodes', c.children);
    StoredCut(nodes', c.children, 0, B);
    StoredCut(nodes', c.children, B, |c.children|);
    EditStored(nodes, nodes', t, i, i, [c.entries[B - 1]], ds);
    SplitChildMeaning(t, i, a, h);
    assert multiset(nodes'.Keys) == multiset(nodes.Keys) + multiset{a};
  }

  /** Two neighbouring children exchange entries and subtrees through the node above them. */
  lemma {:induction false} PairStored(nodes: Pages, nodes': Pages, f: multiset<Address>, t: Tree, i: nat, l: Tree, m: Entry, r: Tree)
    requires i < |t.entries| && |t.children| == |t.entries| + 1
    requires Stored(nodes, t) && Owned(nodes, f, t) && Addrs(Edit(t, i, i + 1, [m], [l, r])) == Addrs(t)
    requires nodes'.Keys == nodes.Keys
    requires SameExcept(nodes, nodes', {t.addr, t.children[i].addr, t.children[i + 1].addr})
    requires forall x :: x in l.children || x in r.children ==> x in t.children[i].children || x in t.children[i + 1].children
    requires TopStored(nodes', Edit(t, i, i + 1, [m], [l, r])) && TopStored(nodes', l) && TopStored(nodes', r)
    ensures Stored(nodes', Edit(t, i, i + 1, [m], [l, r])) && Owned(nodes', f, Edit(t, i, i + 1, [m], [l, r]))
    ensures Agree(nodes, nodes', f)
  {
    var l0, r0 := t.children[i], t.children[i + 1];
    TwoTops(nodes, nodes', f, t, i);
    assert Stored(nodes, l0) && Stored(nodes, r0);
    AllStoredFrame(nodes, nodes', l0.children);
    AllStoredFrame(nodes, nodes', r0.children);
    assert forall k :: 0 <= k < |l.children| ==> l.children[k] in l.children;
    assert forall k :: 0 <= k < |r.children| ==> r.children[k] in r.children;
    EditStored(nodes, nodes', t, i, i + 1, [m], [l, r]);
  }

  lemma {:induction false} RotateLeftStored(nodes: Pages, nodes': Pages, f: multiset<Address>, t: Tree, i: nat, h: nat)
    requires Shape(t, h) && 0 < h && i < |t.entries| && B <= |t.children[i].entries| && |t.children[i + 1].entries| < CAPACITY
    requires Stored(nodes, t) && Owned(nodes, f, t) && nodes'.Keys == nodes.Keys
    requires SameExcept(nodes, nodes', {t.addr, t.children[i].addr, t.children[i + 1].addr})
    requires TopStored(nodes', RotateFromLeft(t, i)) && TopStored(nodes', WithoutLast(t.children[i]))
    requires TopStored(nodes', FromLeft(t.children[i], t.entries[i], t.children[i + 1]))
    ensures Stored(nodes', RotateFromLeft(t, i)) && Owned(nodes', f, RotateFromLeft(t, i)) && Agree(nodes, nodes', f)
  {
    var l, r := t.children[i], t.children[i + 1];
    RotateFromLeftMeaning(t, i, h);
    PairStored(nodes, nodes', f, t, i, WithoutLast(l), l.entries[|l.entries| - 1], FromLeft(l, t.entries[i], r));
  }

  lemma {:induction false} RotateRightStored(nodes: Pages, nodes': Pages, f: multiset<Address>, t: Tree, i: nat, h: nat)
    requires Shape(t, h) && 0 < h && i < |t.entries| && |t.children[i].entries| < CAPACITY && B <= |t.children[i + 1].entries|
    requires Stored(nodes, t) && Owned(nodes, f, t) && nodes'.Keys == nodes.Keys
    requires SameExcept(nodes, nodes', {t.addr, t.children[i].addr, t.children[i + 1].addr})
    requires TopStored(nodes', RotateFromRight(t, i)) && TopStored(nodes', WithoutFirst(t.children[i + 1]))
    requires TopStored(nodes', FromRight(t.children[i], t.entries[i], t.children[i + 1]))
    ensures Stored(nodes', RotateFromRight(t, i)) && Owned(nodes', f, RotateFromRight(t, i)) && Agree(nodes, nodes', f)
  {
    var l, r := t.children[i], t.children[i + 1];
    RotateFromRightMeaning(t, i, h);
    PairStored(nodes, nodes', f, t, i, FromRight(l, t.entries[i], r), r.entries[0], WithoutFirst(r));
  }

  /** `a` is the page kept and `d` the page freed when children i and i + 1 are merged. */
  ghost predicate KeepsOne(t: Tree, i: nat, a: Address, d: Address)
    requires i + 1 < |t.children|
  {
    || (a == t.children[i].addr && d == t.children[i + 1].addr)
    || (a == t.children[i + 1].addr && d == t.children[i].addr)
  }

  /** Children i and i + 1 joined in the page `a` of one of them, the page of the other freed; the
      node above is still to be saved. */
  lemma {:induction false} MergeStored(nodes: Pages, nodes': Pages, f: multiset<Address>, t: Tree, i: nat, a: Address, d: Address, h: nat)
    requires Shape(t, h) && 0 < h && i < |t.entries| && Stored(nodes, t) && Owned(nodes, f, t)
    requires KeepsOne(t, i, a, d)
    requires nodes'.Keys == nodes.Keys - {d} && SameExcept(nodes, nodes', {a, d})
    requires TopStored(nodes', Joined(t.children[i], t.entries[i], t.children[i + 1], a))
    ensures AllStored(nodes', MergeChildren(t, i, a).children) && Owned(nodes', f, MergeChildren(t, i, a))
    ensures Agree(nodes, nodes', f)
  {
    TwoTops(nodes, nodes', f, t, i);
    MergeSubtrees(nodes, nodes', t, i, a);
    MergeChildrenAddrs(t, i, a, h);
    MergeOwned(nodes, nodes', f, t, i, a, d);
  }

  lemma {:induction false} MergeSubtrees(nodes: Pages, nodes': Pages, t: Tree, i: nat, a: Address)
    requires i < |t.entries| && |t.children| == |t.entries| + 1 && Stored(nodes, t)
    requires Agree(nodes, nodes', AddrsOf(t.children[..i])) && Agree(nodes, nodes', AddrsOf(t.children[i + 2..]))
    requires Agree(nodes, nodes', AddrsOf(t.children[i].children)) && Agree(nodes, nodes', AddrsOf(t.children[i + 1].children))
    requires TopStored(nodes', Joined(t.children[i], t.entries[i], t.children[i + 1], a))
    ensures AllStored(nodes', MergeChildren(t, i, a).children)
  {
    var l, r := t.children[i], t.children[i + 1];
    assert Stored(nodes, l) && Stored(nodes, r);
    AllStoredFrame(nodes, nodes', l.children);
    AllStoredFrame(nodes, nodes', r.children);
    AllStoredFrame(nodes, nodes', t.children[..i]);
    AllStoredFrame(nodes, nodes', t.children[i + 2..]);
  }

  lemma {:induction false} MergeOwned(nodes: Pages, nodes': Pages, f: multiset<Address>, t: Tree, i: nat, a: Address, d: Address)
    requires i < |t.entries| && |t.children| == |t.entries| + 1 && Owned(nodes, f, t)
    requires Addrs(t) == Addrs(MergeChildren(t, i, a)) + multiset{d}
    requires nodes'.Keys == nodes.Keys - {d}
    ensures Owned(nodes', f, MergeChildren(t, i, a))
  {
    assert d in multiset(nodes.Keys);
    assert multiset(nodes.Keys - {d}) == multiset(nodes.Keys) - multiset{d};
  }
}
