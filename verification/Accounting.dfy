/** Every allocated chunk is a page of exactly one node of the tree. */
module Accounting {
  import opened Types
  import opened Layout
  import opened Trees
  import opened PageTrees
  import opened NodeIO
  import opened Ownership

  /** The pages of all nodes of a tree, each as often as it occurs. */
  ghost function PagesUnder(nodes: Pages, t: Tree): multiset<Address>
    decreases t, 1
  {
    (if t.addr in nodes then multiset(PagesOf(t.addr, nodes[t.addr])) else multiset{}) + PagesUnderAll(nodes, t.children)
  }

  ghost function PagesUnderAll(nodes: Pages, ts: seq<Tree>): multiset<Address>
    decreases ts, 0
  {
    if ts == [] then multiset{} else PagesUnder(nodes, ts[0]) + PagesUnderAll(nodes, ts[1..])
  }

  /** A page occurs under a tree as often as the node that owns it. */
  lemma {:induction false} PageCounted(nodes: Pages, owner: map<Address, Address>, live: set<Address>, t: Tree, p: Address)
    requires Owners(nodes, owner, live) && Addrs(t) <= multiset(nodes.Keys)
    ensures PagesUnder(nodes, t)[p] == if p in live then Addrs(t)[owner[p]] else 0
    decreases t, 1
  {
    hide Owners, PagesOf;
    PagesCounted(nodes, owner, live, t.children, p);
    assert t.addr in Addrs(t);
    TopCounted(nodes, owner, live, t.addr, p);
  }

  lemma {:induction false} PagesCounted(nodes: Pages, owner: map<Address, Address>, live: set<Address>, ts: seq<Tree>, p: Address)
    requires Owners(nodes, owner, live) && AddrsOf(ts) <= multiset(nodes.Keys)
    ensures PagesUnderAll(nodes, ts)[p] == if p in live then AddrsOf(ts)[owner[p]] else 0
    decreases ts, 0
  {
    hide Owners, PagesOf;
    if ts != [] {
      PageCounted(nodes, owner, live, ts[0], p);
      PagesCounted(nodes, owner, live, ts[1..], p);
    }
  }

  lemma {:induction false} TopCounted(nodes: Pages, owner: map<Address, Address>, live: set<Address>, a: Address, p: Address)
    requires Owners(nodes, owner, live) && a in nodes
    ensures multiset(PagesOf(a, nodes[a]))[p] == if p in live && owner[p] == a then 1 else 0
  {
    var s := PagesOf(a, nodes[a]);
    hide PagesOf;
    OnceAtMost(s, p);
    assert p in multiset(s) <==> p in s;
  }

  lemma {:induction false} OnceAtMost(s: seq<Address>, p: Address)
    requires Distinct(s)
    ensures multiset(s)[p] <= 1
  {
    if s != [] {
      var n := |s| - 1;
      OnceAtMost(s[..n], p);
      assert s == s[..n] + [s[n]];
      assert s[n] in multiset(s[..n]) <==> s[n] in s[..n];
    }
  }

  lemma {:induction false} RootCounted(nodes: Pages, t: Tree)
    requires t.addr in nodes
    ensures t.addr in PagesUnder(nodes, t)
  {
    assert t.addr in PagesOf(t.addr, nodes[t.addr]);
  }

  /** No chunk is lost and none is shared. */
  lemma {:induction false} NoLeaks(nodes: Pages, owner: map<Address, Address>, live: set<Address>, t: Tree)
    requires Owners(nodes, owner, live) && Owned(nodes, multiset{}, t)
    ensures multiset(live) == PagesUnder(nodes, t)
  {
    forall p
      ensures multiset(live)[p] == PagesUnder(nodes, t)[p]
    {
      PageCounted(nodes, owner, live, t, p);
      assert p in live ==> owner[p] in nodes;
    }
  }
}
