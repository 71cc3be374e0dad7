/** Which node each page belongs to, and what the pages of all nodes hold. */
module Ownership {
  import opened Types
  import opened Layout
  import opened Paging
  import opened Allocators
  import opened NodeIO
  import opened FixedNodes

  function PagesOf(a: Address, r: NodeRec): seq<Address> {
    [a] + Overflows(r)
  }

  /** Every allocated page belongs to exactly one node. */
  ghost predicate Owners(nodes: map<Address, NodeRec>, owner: map<Address, Address>, live: set<Address>) {
    && owner.Keys == live
    && (forall a :: a in nodes ==> Distinct(PagesOf(a, nodes[a])))
    && (forall a, p :: a in nodes && p in PagesOf(a, nodes[a]) ==> p in owner && owner[p] == a)
    && (forall p :: p in owner ==> owner[p] in nodes && p in PagesOf(owner[p], nodes[owner[p]]))
  }

  /** The pages of a node hold its string; those of a V2 node are as few as can hold it, that of a V1 node is
      divided in slots. */
  ghost predicate NodeAt(b: Bytes, ps: PageSize, c: Codec, a: Address, r: NodeRec) {
    && Heads(b, Overflows(r))
    && (!r.Blank? ==> Holds(b, PagesOf(a, r), ps, Encode(c, r)) && AllFit(c, r.entries))
    && (r.NodeRec? ==> |r.pages| == NumOverflowPages(|Encode(c, r)|, ps))
    && (r.FixedRec? ==> Slotted(c, ps, r))
  }

  ghost predicate AllAt(b: Bytes, ps: PageSize, c: Codec, nodes: map<Address, NodeRec>) {
    forall a :: a in nodes ==> NodeAt(b, ps, c, a, nodes[a])
  }

  /** Seen from one node: its own pages, and those of all others. */
  lemma {:induction false} OwnShare(nodes: map<Address, NodeRec>, owner: map<Address, Address>, live: set<Address>, a: Address)
    requires Owners(nodes, owner, live) && a in nodes
    ensures Shares(live, live - SetOf(PagesOf(a, nodes[a])), PagesOf(a, nodes[a]))
    ensures forall p :: p in live ==> (p in live - SetOf(PagesOf(a, nodes[a])) <==> owner[p] != a)
  {
  }

  lemma {:induction false} NoPages(nodes: map<Address, NodeRec>, owner: map<Address, Address>, live: set<Address>)
    requires Owners(nodes, owner, live)
    ensures nodes == map[] ==> live == {}
  {
    assert forall p :: p in owner ==> owner[p] in nodes;
  }

  ghost function Reowned(owner: map<Address, Address>, others: set<Address>, live: set<Address>, a: Address): map<Address, Address>
    requires others <= owner.Keys
  {
    map p | p in live :: if p in others then owner[p] else a
  }

  /** One node has new pages; all other pages are as they were. */
  lemma {:induction false} OwnersAfterPut(nodes: map<Address, NodeRec>, owner: map<Address, Address>, live: set<Address>, others: set<Address>, live': set<Address>, a: Address, r: NodeRec)
    requires Owners(nodes, owner, live) && others <= live && Shares(live', others, PagesOf(a, r))
    requires forall p :: p in live ==> (p in others <==> owner[p] != a)
    ensures others <= owner.Keys && Owners(nodes[a := r], Reowned(owner, others, live', a), live')
  {
    hide PagesOf, Distinct;
    var nodes', owner' := nodes[a := r], Reowned(owner, others, live', a);
    forall x, p | x in nodes' && p in PagesOf(x, nodes'[x])
      ensures p in owner' && owner'[p] == x
    {
      if x == a {
        assert p in SetOf(PagesOf(a, r));
      } else {
        assert p in PagesOf(x, nodes[x]) && owner[p] == x;
        assert p in others;
      }
    }
    forall p | p in owner'
      ensures owner'[p] in nodes' && p in PagesOf(owner'[p], nodes'[owner'[p]])
    {
      if p in others {
        assert owner[p] != a;
      } else {
        assert p in SetOf(PagesOf(a, r));
      }
    }
  }

  lemma {:induction false} NodeLive(nodes: map<Address, NodeRec>, owner: map<Address, Address>, live: set<Address>, a: Address)
    requires Owners(nodes, owner, live) && a in nodes
    ensures a in live && owner[a] == a
  {
    assert PagesOf(a, nodes[a])[0] in owner;
  }

  lemma {:induction false} NewShare(nodes: map<Address, NodeRec>, owner: map<Address, Address>, live: set<Address>, a: Address)
    requires Owners(nodes, owner, live) && a !in live
    ensures a !in nodes && Shares(live + {a}, live, PagesOf(a, Blank))
    ensures forall p :: p in live ==> owner[p] != a
  {
    forall x | x in nodes
      ensures x != a
    {
      NodeLive(nodes, owner, live, x);
    }
    hide Owners;
  }

  lemma {:induction false} OwnersAfterFree(nodes: map<Address, NodeRec>, owner: map<Address, Address>, live: set<Address>, a: Address)
    requires Owners(nodes, owner, live) && a in nodes
    ensures var gone := SetOf(PagesOf(a, nodes[a])); Owners(nodes - {a}, owner - gone, live - gone)
  {
    hide PagesOf, Distinct;
    var gone := SetOf(PagesOf(a, nodes[a]));
    forall x, p | x in nodes - {a} && p in PagesOf(x, nodes[x])
      ensures p in owner - gone && owner[p] == x
    {
      assert owner[p] == x;
    }
  }

  /** What a node's pages hold depends on them only. */
  lemma {:induction false} NodeAtFrame(b: Bytes, b': Bytes, front: nat, pages: set<Address>, ps: PageSize, c: Codec, a: Address, r: NodeRec)
    requires NodeAt(b, ps, c, a, r) && Untouched(b, b', front, pages, ps) && SetOf(PagesOf(a, r)) <= pages
    ensures NodeAt(b', ps, c, a, r)
  {
    hide Encode, Holds, NumOverflowPages, Slotted, AllFit;
    var p := PagesOf(a, r);
    assert forall k :: 0 <= k < |p| ==> p[k] in SetOf(p);
    assert SetOf(Overflows(r)) <= SetOf(p);
    HeadsFrame(b, b', front, pages, Overflows(r), ps);
    if !r.Blank? {
      HoldsFrame(b, b', p, ps, Encode(c, r));
    }
  }

  lemma {:induction false} OthersFrame(b: Bytes, b': Bytes, front: nat, others: set<Address>, ps: PageSize, c: Codec,
                                       nodes: map<Address, NodeRec>, owner: map<Address, Address>, live: set<Address>, rest: map<Address, NodeRec>)
    requires AllAt(b, ps, c, nodes) && Untouched(b, b', front, others, ps) && Owners(nodes, owner, live)
    requires forall x :: x in rest ==> x in nodes && rest[x] == nodes[x]
    requires forall p :: p in live && owner[p] in rest ==> p in others
    ensures AllAt(b', ps, c, rest)
  {
    hide NodeAt, Untouched, Encode;
    forall x | x in rest
      ensures NodeAt(b', ps, c, x, rest[x])
    {
      assert NodeAt(b, ps, c, x, nodes[x]);
      forall p | p in SetOf(PagesOf(x, nodes[x]))
        ensures p in others
      {
        assert owner[p] == x;
      }
      NodeAtFrame(b, b', front, others, ps, c, x, nodes[x]);
    }
  }
}
