/** Trees held in pages. */
module PageTrees {
  import opened Types
  import opened Trees
  import opened Layout

  type Pages = map<Address, NodeRec>

  ghost function KindOf(t: Tree): NodeType {
    if t.children == [] then Leaf else Internal
  }

  ghost function Roots(ts: seq<Tree>): (cs: seq<Address>)
    ensures |cs| == |ts|
  {
    seq(|ts|, i requires 0 <= i < |ts| => ts[i].addr)
  }

  /** The page at the top of `t` holds the top node of `t`. */
  ghost predicate TopStored(nodes: Pages, t: Tree) {
    && t.addr in nodes
    && !nodes[t.addr].Blank?
    && nodes[t.addr].kind == KindOf(t)
    && nodes[t.addr].entries == t.entries
    && nodes[t.addr].children == Roots(t.children)
  }

  ghost predicate Stored(nodes: Pages, t: Tree)
    decreases t, 1
  {
    TopStored(nodes, t) && AllStored(nodes, t.children)
  }

  ghost predicate AllStored(nodes: Pages, ts: seq<Tree>)
    decreases ts, 0
  {
    forall i :: 0 <= i < |ts| ==> Stored(nodes, ts[i])
  }

  lemma {:induction false} ChildStored(nodes: Pages, t: Tree, i: nat)
    requires Stored(nodes, t) && i < |t.children|
    ensures Stored(nodes, t.children[i]) && Roots(t.children)[i] == t.children[i].addr
  {
  }

  /** Nothing at the addresses of `a` has changed. */
  ghost predicate Agree(nodes: Pages, nodes': Pages, a: multiset<Address>) {
    forall x :: x in a && x in nodes ==> x in nodes' && nodes'[x] == nodes[x]
  }

  lemma {:induction false} AddrsWithin(ts: seq<Tree>, i: nat)
    requires i < |ts|
    ensures Addrs(ts[i]) <= AddrsOf(ts)
  {
    AddrsAt(ts, i);
  }

  /** A tree stays stored while its own pages stay as they are. */
  lemma {:induction false} StoredFrame(nodes: Pages, nodes': Pages, t: Tree)
    requires Stored(nodes, t) && Agree(nodes, nodes', Addrs(t))
    ensures Stored(nodes', t)
    decreases t, 1
  {
    assert t.addr in Addrs(t);
    AllStoredFrame(nodes, nodes', t.children);
  }

  lemma {:induction false} AllStoredFrame(nodes: Pages, nodes': Pages, ts: seq<Tree>)
    requires AllStored(nodes, ts) && Agree(nodes, nodes', AddrsOf(ts))
    ensures AllStored(nodes', ts)
    decreases ts, 0
  {
    forall i | 0 <= i < |ts|
      ensures Stored(nodes', ts[i])
    {
      AddrsWithin(ts, i);
      StoredFrame(nodes, nodes', ts[i]);
    }
  }

  /** The addresses in `nodes` are those of `t` and those in `f`, each exactly once. */
  ghost predicate Owned(nodes: Pages, f: multiset<Address>, t: Tree) {
    multiset(nodes.Keys) == f + Addrs(t)
  }

  /** Parts of the owned addresses do not overlap. */
  lemma {:induction false} Apart(keys: set<Address>, a: multiset<Address>, b: multiset<Address>)
    requires a + b <= multiset(keys)
    ensures a !! b
  {
    forall x | x in a
      ensures x !in b
    {
      assert (a + b)[x] <= multiset(keys)[x];
    }
  }

  /** An edited node is stored when its page, its new subtrees and its old ones are. */
  lemma {:induction false} EditStored(nodes: Pages, nodes': Pages, t: Tree, i: nat, j: nat, bs: seq<Entry>, ds: seq<Tree>)
    requires Editable(t, i, j, bs, ds) && AllStored(nodes, t.children)
    requires Agree(nodes, nodes', AddrsOf(t.children[..i])) && Agree(nodes, nodes', AddrsOf(t.children[j + 1..]))
    requires TopStored(nodes', Edit(t, i, j, bs, ds)) && AllStored(nodes', ds)
    ensures Stored(nodes', Edit(t, i, j, bs, ds))
  {
    AllStoredFrame(nodes, nodes', t.children[..i]);
    AllStoredFrame(nodes, nodes', t.children[j + 1..]);
  }

  /** The addresses around child `i`: what the child's operations must leave alone. */
  ghost function Around(f: multiset<Address>, t: Tree, i: nat): multiset<Address>
    requires i < |t.children|
  {
    f + multiset{t.addr} + AddrsOf(t.children[..i]) + AddrsOf(t.children[i + 1..])
  }

  lemma {:induction false} Descend(nodes: Pages, f: multiset<Address>, t: Tree, i: nat)
    requires Owned(nodes, f, t) && i < |t.children|
    ensures Owned(nodes, Around(f, t, i), t.children[i])
  {
    AddrsAt(t.children, i);
  }

  /** Putting back a child that changed under an unchanged node. */
  lemma {:induction false} Ascend(nodes: Pages, nodes': Pages, f: multiset<Address>, t: Tree, i: nat, c: Tree)
    requires Stored(nodes, t) && i <= |t.entries| && |t.children| == |t.entries| + 1
    requires c.addr == t.children[i].addr && Stored(nodes', c)
    requires Agree(nodes, nodes', Around(f, t, i)) && Owned(nodes', Around(f, t, i), c)
    ensures Stored(nodes', Edit(t, i, i, [], [c]))
    ensures Owned(nodes', f, Edit(t, i, i, [], [c]))
    ensures Agree(nodes, nodes', f)
  {
    var t' := Edit(t, i, i, [], [c]);
    assert Roots(t'.children) == Roots(t.children);
    assert t'.entries == t.entries;
    AroundParts(nodes, nodes', f, t, i);
    EditStored(nodes, nodes', t, i, i, [], [c]);
    EditAddrs(t, i, i, [], [c]);
    AddrsOne(c);
    assert Around(f, t, i) + Addrs(c) == f + Addrs(t');
  }

  lemma {:induction false} AroundParts(nodes: Pages, nodes': Pages, f: multiset<Address>, t: Tree, i: nat)
    requires i < |t.children| && Agree(nodes, nodes', Around(f, t, i))
    ensures Agree(nodes, nodes', f) && Agree(nodes, nodes', multiset{t.addr})
    ensures Agree(nodes, nodes', AddrsOf(t.children[..i])) && Agree(nodes, nodes', AddrsOf(t.children[i + 1..]))
    ensures t.addr in nodes ==> t.addr in nodes' && nodes'[t.addr] == nodes[t.addr]
  {
    SumParts(nodes, nodes', f, t.addr, AddrsOf(t.children[..i]), AddrsOf(t.children[i + 1..]));
  }

  lemma {:induction false} SumParts(nodes: Pages, nodes': Pages, f: multiset<Address>, x: Address, a: multiset<Address>, b: multiset<Address>)
    requires Agree(nodes, nodes', f + multiset{x} + a + b)
    ensures Agree(nodes, nodes', f) && Agree(nodes, nodes', multiset{x}) && Agree(nodes, nodes', a) && Agree(nodes, nodes', b)
    ensures x in nodes ==> x in nodes' && nodes'[x] == nodes[x]
  {
    var s := f + multiset{x} + a + b;
    assert x in s;
    assert forall e :: e in f ==> e in s;
    assert forall e :: e in a ==> e in s;
    assert forall e :: e in b ==> e in s;
  }

  /** Only the pages in `xs` have changed. */
  ghost predicate SameExcept(nodes: Pages, nodes': Pages, xs: set<Address>) {
    forall x :: x in nodes && x !in xs ==> x in nodes' && nodes'[x] == nodes[x]
  }

  /** An address in one part of the owned ones is in no other part. */
  lemma {:induction false} OnlyOnce(keys: set<Address>, x: Address, m: multiset<Address>)
    requires multiset{x} + m <= multiset(keys)
    ensures x !in m
  {
    assert (multiset{x} + m)[x] <= multiset(keys)[x];
  }

  lemma {:induction false} Regroup(k: multiset<Address>, f: multiset<Address>, x: Address, a: multiset<Address>, y: Address,
                                   b: multiset<Address>, c: multiset<Address>)
    requires k == f + (multiset{x} + (a + (multiset{y} + b) + c))
    ensures multiset{x} + (multiset{y} + (f + a + b + c)) <= k
    ensures multiset{y} + (multiset{x} + (f + a + b + c)) <= k
  {
  }

  /** When only the pages of a node and of its child `i` change, all else agrees. */
  lemma {:induction false} OneTop(nodes: Pages, nodes': Pages, f: multiset<Address>, t: Tree, i: nat)
    requires Owned(nodes, f, t) && i < |t.children|
    requires SameExcept(nodes, nodes', {t.addr, t.children[i].addr})
    ensures t.addr != t.children[i].addr
    ensures Agree(nodes, nodes', f)
    ensures Agree(nodes, nodes', AddrsOf(t.children[..i])) && Agree(nodes, nodes', AddrsOf(t.children[i + 1..]))
    ensures Agree(nodes, nodes', AddrsOf(t.children[i].children))
  {
    var cs, x, y := t.children, t.addr, t.children[i].addr;
    var a, b, c := AddrsOf(cs[..i]), AddrsOf(cs[i].children), AddrsOf(cs[i + 1..]);
    AddrsAt(cs, i);
    ScatteredTwo(nodes, nodes', f, x, a, y, b, c);
  }

  lemma {:induction false} ScatteredTwo(nodes: Pages, nodes': Pages, f: multiset<Address>, x: Address, a: multiset<Address>,
                                        y: Address, b: multiset<Address>, c: multiset<Address>)
    requires multiset(nodes.Keys) == f + (multiset{x} + (a + (multiset{y} + b) + c))
    requires SameExcept(nodes, nodes', {x, y})
    ensures x != y && Agree(nodes, nodes', f) && Agree(nodes, nodes', a) && Agree(nodes, nodes', b) && Agree(nodes, nodes', c)
  {
    var rest := f + a + b + c;
    Regroup(multiset(nodes.Keys), f, x, a, y, b, c);
    OnlyOnce(nodes.Keys, x, multiset{y} + rest);
    OnlyOnce(nodes.Keys, y, multiset{x} + rest);
    assert x !in rest && y !in rest;
    assert forall e :: e in f ==> e in rest;
    assert forall e :: e in a ==> e in rest;
    assert forall e :: e in b ==> e in rest;
    assert forall e :: e in c ==> e in rest;
  }

  /** When only the pages of a node and of its children `i` and `i + 1` change, all else agrees. */
  lemma {:induction false} TwoTops(nodes: Pages, nodes': Pages, f: multiset<Address>, t: Tree, i: nat)
    requires Owned(nodes, f, t) && i + 1 < |t.children|
    requires SameExcept(nodes, nodes', {t.addr, t.children[i].addr, t.children[i + 1].addr})
    ensures t.addr != t.children[i].addr && t.addr != t.children[i + 1].addr
    ensures t.children[i].addr != t.children[i + 1].addr
    ensures Agree(nodes, nodes', f)
    ensures Agree(nodes, nodes', AddrsOf(t.children[..i])) && Agree(nodes, nodes', AddrsOf(t.children[i + 2..]))
    ensures Agree(nodes, nodes', AddrsOf(t.children[i].children)) && Agree(nodes, nodes', AddrsOf(t.children[i + 1].children))
  {
    var cs := t.children;
    AddrsAt(cs, i);
    assert cs[i + 1..][0] == cs[i + 1] && cs[i + 1..][1..] == cs[i + 2..];
    ScatteredThree(nodes, nodes', f, t.addr, AddrsOf(cs[..i]), cs[i].addr, AddrsOf(cs[i].children),
                   cs[i + 1].addr, AddrsOf(cs[i + 1].children), AddrsOf(cs[i + 2..]));
  }

  lemma {:induction false} ScatteredThree(nodes: Pages, nodes': Pages, f: multiset<Address>, x: Address, a: multiset<Address>,
                                          y: Address, b: multiset<Address>, z: Address, c: multiset<Address>, d: multiset<Address>)
    requires multiset(nodes.Keys) == f + (multiset{x} + (a + (multiset{y} + b) + ((multiset{z} + c) + d)))
    requires SameExcept(nodes, nodes', {x, y, z})
    ensures x != y && x != z && y != z
    ensures Agree(nodes, nodes', f) && Agree(nodes, nodes', a) && Agree(nodes, nodes', b)
    ensures Agree(nodes, nodes', c) && Agree(nodes, nodes', d)
  {
    var keys := multiset(nodes.Keys);
    var rest := f + a + b + c + d;
    Regroup(keys, f, x, a, y, b, (multiset{z} + c) + d);
    Regroup(keys, f, x, a + (multiset{y} + b), z, c, d) by {
      assert a + (multiset{y} + b) + ((multiset{z} + c) + d) == a + (multiset{y} + b) + (multiset{z} + c) + d;
    }
    OnlyOnce(nodes.Keys, x, multiset{y} + (f + a + b + ((multiset{z} + c) + d)));
    OnlyOnce(nodes.Keys, y, multiset{x} + (f + a + b + ((multiset{z} + c) + d)));
    OnlyOnce(nodes.Keys, z, multiset{x} + (f + (a + (multiset{y} + b)) + c + d));
    assert x !in rest && y !in rest && z !in rest;
    assert forall e :: e in f ==> e in rest;
    assert forall e :: e in a ==> e in rest;
    assert forall e :: e in b ==> e in rest;
    assert forall e :: e in c ==> e in rest;
    assert forall e :: e in d ==> e in rest;
  }

  /** A node and its children have pages of their own. */
  lemma {:induction false} DistinctTops(nodes: Pages, f: multiset<Address>, t: Tree, i: nat)
    requires Owned(nodes, f, t) && i < |t.children|
    ensures t.addr != t.children[i].addr
    ensures i + 1 < |t.children| ==> t.addr != t.children[i + 1].addr && t.children[i].addr != t.children[i + 1].addr
  {
    OneTop(nodes, nodes, f, t, i);
    if i + 1 < |t.children| {
      TwoTops(nodes, nodes, f, t, i);
    }
  }
}
