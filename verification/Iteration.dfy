/** The double-ended range iterator: two stacks of cursors and one shrinking range. */
module Iteration {
  import opened Types
  import opened SortedSeq
  import opened Trees
  import opened Layout
  import opened PageTrees
  import opened Nodes
  import opened Headers
  import opened BTree
  import opened Ranges
  import opened Spots

  datatype Index = Child(i: nat) | EntryAt(i: nat)

  datatype Cursor = AtAddress(addr: Address) | AtNode(node: Node, next: Index)

  // ---- The books of an iteration

  /** What remains is in front of the forward cursors, and behind the backward ones. An iterator over
      nothing has both stacks empty from the start. */
  ghost predicate Account(c: seq<Entry>, pre: seq<Entry>, rem: seq<Entry>, post: seq<Entry>, lo: Bound, hi: Bound,
                          f: bool, b: bool, x: seq<Entry>, y: seq<Entry>)
  {
    && (Framed(c, pre, rem, post, lo, hi) || (rem == [] && f && b && x == [] && y == []))
    && (f ==> rem <= x) && (b ==> Ends(y, rem))
    && (forall e :: e in x ==> e in c) && (forall e :: e in y ==> e in c)
  }

  lemma {:induction false} TakeFirst(c: seq<Entry>, pre: seq<Entry>, rem: seq<Entry>, post: seq<Entry>, lo: Bound, hi: Bound,
                                     b: bool, e: Entry, x: seq<Entry>, y: seq<Entry>)
    requires Sorted(c) && Account(c, pre, rem, post, lo, hi, true, b, [e] + x, y)
    ensures Inside(lo, hi, e.key) <==> rem != []
    ensures rem != [] ==> rem[0] == e && Account(c, pre + [e], rem[1..], post, Excluded(e.key), hi, true, b, x, y)
    ensures rem == [] ==> Account(c, pre, rem, post, lo, hi, true, b, [], [])
  {
    assert ([e] + x)[0] == e;
    assert e in [e] + x && forall d :: d in x ==> d in [e] + x;
    First(c, pre, rem, post, lo, hi, e, x);
    if rem != [] {
      FirstTaken(c, pre, rem, post, lo, hi);
      assert b ==> y[|y| - |rem[1..]|..] == y[|y| - |rem|..][1..];
    }
  }

  lemma {:induction false} TakeLast(c: seq<Entry>, pre: seq<Entry>, rem: seq<Entry>, post: seq<Entry>, lo: Bound, hi: Bound,
                                    f: bool, e: Entry, x: seq<Entry>, y: seq<Entry>)
    requires Sorted(c) && Account(c, pre, rem, post, lo, hi, f, true, x, y + [e])
    ensures Inside(lo, hi, e.key) <==> rem != []
    ensures rem != [] ==> rem[|rem| - 1] == e && Account(c, pre, rem[..|rem| - 1], [e] + post, lo, Excluded(e.key), f, true, x, y)
    ensures rem == [] ==> Account(c, pre, rem, post, lo, hi, f, true, [], [])
  {
    assert (y + [e])[|y|] == e;
    assert e in y + [e] && forall d :: d in y ==> d in y + [e];
    Last(c, pre, rem, post, lo, hi, e, y);
    if rem != [] {
      LastTaken(c, pre, rem, post, lo, hi);
      assert f ==> rem[..|rem| - 1] == x[..|rem| - 1];
    }
  }

  /** While the first cursors are sought: what remains is in front. */
  ghost predicate Sought(c: seq<Entry>, rem: seq<Entry>, x: seq<Entry>) {
    rem <= x && forall e :: e in x ==> e in c
  }

  ghost predicate SoughtBack(c: seq<Entry>, rem: seq<Entry>, y: seq<Entry>) {
    Ends(y, rem) && forall e :: e in y ==> e in c
  }

  /** The first cursors are set. */
  lemma {:induction false} Started(c: seq<Entry>, pre: seq<Entry>, rem: seq<Entry>, post: seq<Entry>, lo: Bound, hi: Bound,
                                   f: bool, b: bool, x: seq<Entry>, y: seq<Entry>, z: seq<Entry>)
    ensures Account(c, pre, rem, post, lo, hi, false, b, x, y) && Sought(c, rem, z) ==> Account(c, pre, rem, post, lo, hi, true, b, z, y)
    ensures Account(c, pre, rem, post, lo, hi, f, false, x, y) && SoughtBack(c, rem, z) ==> Account(c, pre, rem, post, lo, hi, f, true, x, z)
  {
  }

  lemma {:induction false} LeaveOut(c: seq<Entry>, rem: seq<Entry>, x: seq<Entry>, r: seq<Entry>, a: seq<Entry>, lo: Bound, hi: Bound)
    requires Sought(c, rem, x + (r + a)) && (forall e :: e in rem ==> Inside(lo, hi, e.key))
    requires r != [] && !Inside(lo, hi, r[0].key)
    ensures Sought(c, rem, x + a)
  {
    assert (r + a)[0] == r[0];
    CutFront(rem, x, r + a, lo, hi);
    assert forall e :: e in x + a ==> e in x + (r + a);
  }

  lemma {:induction false} LeaveOutBack(c: seq<Entry>, rem: seq<Entry>, a: seq<Entry>, l: seq<Entry>, x: seq<Entry>, lo: Bound, hi: Bound)
    requires SoughtBack(c, rem, a + l + x) && (forall e :: e in rem ==> Inside(lo, hi, e.key))
    requires l != [] && !Inside(lo, hi, l[|l| - 1].key)
    ensures SoughtBack(c, rem, a + x)
  {
    assert (a + l)[|a + l| - 1] == l[|l| - 1];
    CutBack(rem, x, a + l, lo, hi);
    assert (a + x)[|a + x| - |rem|..] == x[|x| - |rem|..];
    assert forall e :: e in a + x ==> e in a + l + x;
  }

  /** How far a stack is from its next entry. */
  ghost function Depth(ss: seq<Spot>): nat {
    if ss == [] then 0
    else match ss[|ss| - 1]
      case Gone => 1 + Depth(ss[..|ss| - 1])
      case Whole(_, h) => 2 * h + 1
      case AtChild(_, h, _) => 2 * h
      case AtEntry(_, _, _) => 0
  }

  lemma {:induction false} DepthOf(ss: seq<Spot>, s: Spot)
    requires s.Whole? || s.AtChild?
    ensures Depth(ss + [s]) == if s.Whole? then 2 * s.h + 1 else 2 * s.h
  {
  }

  lemma {:induction false} OpenedFrontLess(ss: seq<Spot>, n: nat)
    requires n + 1 == |ss| && ss[n].Whole?
    ensures Depth(ss[..n] + [Opened(ss[n].t, ss[n].h)]) < Depth(ss)
  {
  }

  lemma {:induction false} OpenedBackLess(ss: seq<Spot>, n: nat)
    requires n + 1 == |ss| && ss[n].Whole? && 0 < |ss[n].t.entries|
    ensures Depth(ss[..n] + [OpenedBack(ss[n].t, ss[n].h)]) < Depth(ss)
  {
  }

  class RangeIter {
    const btree: BTreeMap
    var forwardReady: bool
    var backwardReady: bool
    var forward: seq<Cursor>
    var backward: seq<Cursor>
    var lower: Bound
    var upper: Bound

    ghost var ahead: seq<Spot>
    ghost var behind: seq<Spot>
    ghost var pre: seq<Entry>
    ghost var post: seq<Entry>
    /** The entries still to come. */
    ghost var remaining: seq<Entry>

    ghost function NodesOf(cs: seq<Cursor>): set<Node> {
      set c | c in cs && c.AtNode? :: c.node
    }

    /** A cursor stands at a place in the stored tree. */
    ghost predicate At(c: Cursor, s: Spot)
      reads btree.store, if c.AtNode? then {c.node} else {}
    {
      match c
      case AtAddress(a) => if a == NULL then s.Gone? else s.Whole? && s.t.addr == a && Stored(btree.store.nodes, s.t)
      case AtNode(n, Child(i)) => s.AtChild? && s.i == i && btree.Is(n, s.t) && AllStored(btree.store.nodes, s.t.children)
      case AtNode(n, EntryAt(i)) => s.AtEntry? && s.i == i && btree.Is(n, s.t) && AllStored(btree.store.nodes, s.t.children)
    }

    ghost predicate Stack(cs: seq<Cursor>, ss: seq<Spot>)
      reads btree.store, NodesOf(cs)
    {
      |cs| == |ss| && AllFine(ss) && forall i :: 0 <= i < |cs| ==> At(cs[i], ss[i])
    }

    ghost predicate Valid()
      reads this, btree, btree.store.Footprint(), NodesOf(forward), NodesOf(backward)
    {
      && btree.Valid() && Stack(forward, ahead) && Stack(backward, behind)
      && Account(btree.Contents(), pre, remaining, post, lower, upper, forwardReady, backwardReady, Ahead(ahead), Behind(behind))
      && (!forwardReady ==> forward == [] && (lower.Unbounded? || btree.rootAddr != NULL))
      && (!backwardReady ==> backward == [] && (upper.Unbounded? || btree.rootAddr != NULL))
    }

    /** Before the cursors are set: what remains is what the range leaves of the map. */
    lemma Books()
      requires Valid() && !(forwardReady && backwardReady)
      ensures forall e :: e in remaining ==> Inside(lower, upper, e.key)
      ensures Sorted(btree.Contents())
      ensures Sought(btree.Contents(), remaining, Beyond(lower, btree.Contents()))
      ensures SoughtBack(btree.Contents(), remaining, Within(upper, btree.Contents()))
    {
      hide NodeStore.Valid, NodeStore.Front, MapHeader, Ahead, Behind, Beyond, Within;
      var c := btree.Contents();
      btree.ContentsSorted();
      RemainsBeyond(c, pre, remaining, post, lower, upper);
      BeyondWithin(lower, upper, c);
    }

    // ---- Starting

    /** An iterator over a range; over nothing if the map is empty. */
    constructor (btree: BTreeMap, lower: Bound, upper: Bound)
      requires btree.Valid()
      ensures Valid() && this.btree == btree && remaining == InRange(btree.Contents(), lower, upper)
      ensures forward == [] && backward == []
    {
      hide NodeStore.Valid, NodeStore.Front, MapHeader, InRange, Framed, Sorted, Flatten, Stored, Owned, Shape;
      btree.ContentsSorted();
      NothingInRange(lower, upper);
      var started := btree.rootAddr == NULL && !(lower.Unbounded? && upper.Unbounded?);
      this.btree, this.lower, this.upper := btree, lower, upper;
      forwardReady, backwardReady, forward, backward := started, started, [], [];
      ahead, behind := [], [];
      var a, b := FrameOf(btree.Contents(), lower, upper);
      pre, post, remaining := a, b, InRange(btree.Contents(), lower, upper);
    }

    /** An iterator over nothing. */
    constructor Null(btree: BTreeMap)
      requires btree.Valid()
      ensures Valid() && this.btree == btree && remaining == []
      ensures forward == [] && backward == []
    {
      hide NodeStore.Valid, NodeStore.Front, MapHeader;
      this.btree, lower, upper := btree, Unbounded, Unbounded;
      forwardReady, backwardReady, forward, backward := true, true, [], [];
      ahead, behind, pre, post, remaining := [], [], [], [], [];
    }

    lemma NodesAdded(cs: seq<Cursor>, c: Cursor)
      ensures NodesOf(cs + [c]) == NodesOf(cs) + if c.AtNode? then {c.node} else {}
    {
      assert forall d :: d in cs + [c] <==> d in cs || d == c;
    }

    /** Pushes a cursor; the places below it stay as they are. */
    lemma PushedStack(cs: seq<Cursor>, ss: seq<Spot>, c: Cursor, s: Spot)
      requires Stack(cs, ss) && Fine(s) && At(c, s)
      ensures Stack(cs + [c], ss + [s]) && NodesOf(cs + [c]) == NodesOf(cs) + if c.AtNode? then {c.node} else {}
      ensures Ahead(ss + [s]) == Forward(s) + Ahead(ss) && Behind(ss + [s]) == Behind(ss) + Backward(s)
    {
      hide Fine;
      Pushed(ss, s);
      NodesAdded(cs, c);
    }

    /** Entry `j` and what follows it, if entry `j` is in range. */
    method PushEntry(node: Node, j: nat, ghost t: Tree, ghost h: nat, ghost x: seq<Entry>)
      requires btree.store.Valid() && Stack(forward, ahead) && btree.Is(node, t) && AllStored(btree.store.nodes, t.children) && node !in NodesOf(forward)
      requires Shape(t, h) && j <= |t.entries| && (forall e :: e in remaining ==> Inside(lower, upper, e.key))
      requires Sought(btree.Contents(), remaining, x + (RightOf(t, j) + Ahead(ahead)))
      modifies this`forward, this`ahead, node`entries
      ensures Stack(forward, ahead) && btree.Is(node, t) && NodesOf(forward) <= old(NodesOf(forward)) + {node}
      ensures Sought(btree.Contents(), remaining, x + Ahead(ahead))
    {
      hide NodeStore.Valid, NodeStore.Front, MapHeader, Denote, InPages, RightOf, Ahead, Behind, Sought;
      NoEnds(t);
      if j < |node.entries| {
        AroundEntry(t, j);
        var k := node.Key(j, btree.store);
        if Inside(lower, upper, k) {
          PushedStack(forward, ahead, AtNode(node, EntryAt(j)), AtEntry(t, h, j));
          forward, ahead := forward + [AtNode(node, EntryAt(j))], ahead + [AtEntry(t, h, j)];
        } else {
          LeaveOut(btree.Contents(), remaining, x, RightOf(t, j), Ahead(ahead), lower, upper);
        }
      } else {
        assert RightOf(t, j) + Ahead(ahead) == Ahead(ahead);
      }
    }

    /** The node whose entries are searched for the start of the range. */
    ghost predicate Seeking(node: Node, t: Tree, h: nat)
      reads this, btree, btree.store.Footprint(), node, NodesOf(forward)
    {
      && btree.Valid() && Stack(forward, ahead) && btree.Is(node, t) && Stored(btree.store.nodes, t) && node !in NodesOf(forward)
      && Fine(Whole(t, h)) && Sorted(Flatten(t)) && !lower.Unbounded? && (forall e :: e in remaining ==> Inside(lower, upper, e.key))
      && Sought(btree.Contents(), remaining, Beyond(lower, Flatten(t)) + Ahead(ahead))
    }

    /** The key of the bound is entry `i`. */
    method SeekFound(node: Node, i: nat, ghost t: Tree, ghost h: nat)
      requires Seeking(node, t, h) && i < |t.entries| && t.entries[i].key == lower.key
      modifies this`forward, this`ahead, node`entries
      ensures Stack(forward, ahead) && Sought(btree.Contents(), remaining, Ahead(ahead))
      ensures NodesOf(forward) <= old(NodesOf(forward)) + {node}
    {
      hide NodeStore.Valid, NodeStore.Front, MapHeader, Denote, InPages, RightOf, Ahead, Behind, Sought, Beyond, Flatten, Parts, Sorted;
      EntryBeyond(t, i, lower);
      if lower.Included? {
        PushedStack(forward, ahead, AtNode(node, EntryAt(i)), AtEntry(t, h, i));
        forward, ahead := forward + [AtNode(node, EntryAt(i))], ahead + [AtEntry(t, h, i)];
      } else {
        assert Parts(t)[i + 1] + RightOf(t, i + 1) + Ahead(ahead) == Parts(t)[i + 1] + (RightOf(t, i + 1) + Ahead(ahead));
        PushEntry(node, i + 1, t, h, Parts(t)[i + 1]);
        PartsOf(t, h, i + 1);
        if node.kind.Internal? {
          ChildShape(t, h, i + 1);
          ChildStored(btree.store.nodes, t, i + 1);
          btree.store.NoNull();
          ghost var s := Whole(t.children[i + 1], h - 1);
          PushedStack(forward, ahead, AtAddress(node.children[i + 1]), s);
          forward, ahead := forward + [AtAddress(node.children[i + 1])], ahead + [s];
        } else {
          assert [] + Ahead(ahead) == Ahead(ahead);
        }
      }
    }

    /** The key of the bound is in gap `i`: the search goes on in child `i`, if there is one. */
    method SeekMissing(node: Node, i: nat, ghost t: Tree, ghost h: nat) returns (child: Node?)
      requires Seeking(node, t, h) && Gap(t.entries, i, lower.key)
      modifies this`forward, this`ahead, node`entries
      ensures NodesOf(forward) <= old(NodesOf(forward)) + {node}
      ensures child == null ==> Stack(forward, ahead) && Sought(btree.Contents(), remaining, Ahead(ahead))
      ensures child != null ==> fresh(child) && 0 < h && i < |t.children| && Seeking(child, t.children[i], h - 1)
    {
      hide NodeStore.Valid, NodeStore.Front, MapHeader, Denote, InPages, RightOf, Ahead, Behind, Sought, Beyond, Flatten, Parts, Sorted;
      GapBeyond(t, i, lower);
      ghost var x := Beyond(lower, Parts(t)[i]);
      assert x + RightOf(t, i) + Ahead(ahead) == x + (RightOf(t, i) + Ahead(ahead));
      child := null;
      PartsOf(t, h, i);
      if node.kind.Internal? {
        child := btree.LoadChild(node, i, t, h);
      }
      PushEntry(node, i, t, h, x);
      if child == null {
        NothingBeyond(lower, lower);
        assert [] + Ahead(ahead) == Ahead(ahead);
      } else {
        ChildShape(t, h, i);
        ChildStored(btree.store.nodes, t, i);
        ChildSorted(t, i);
      }
    }

    /** Searches one node, and loads the child to search next. */
    method SeekStep(node: Node, ghost t: Tree, ghost h: nat) returns (child: Node?, i: nat)
      requires Seeking(node, t, h)
      modifies this`forward, this`ahead, node`entries
      ensures NodesOf(forward) <= old(NodesOf(forward)) + {node}
      ensures child == null ==> Stack(forward, ahead) && Sought(btree.Contents(), remaining, Ahead(ahead))
      ensures child != null ==> fresh(child) && 0 < h && i < |t.children| && Seeking(child, t.children[i], h - 1)
    {
      hide NodeStore.Valid, NodeStore.Front, MapHeader, Denote, InPages, Ahead, Behind, Beyond, Flatten, Sorted, Sought, Owned, Stored, Shape, At;
      EntriesSorted(t);
      var s := node.Search(lower.key, btree.store);
      child, i := null, s.index;
      if s.Found? {
        SeekFound(node, i, t, h);
      } else {
        child := SeekMissing(node, i, t, h);
      }
    }

    /** The root is the first node to be searched. */
    lemma SeekRoot(node: Node)
      requires Valid() && !forwardReady && !lower.Unbounded? && node !in NodesOf(forward)
      requires btree.rootAddr != NULL && btree.Is(node, btree.tree)
      ensures Seeking(node, btree.tree, btree.height)
    {
      hide NodeStore.Valid, NodeStore.Front, MapHeader, Denote, InPages, Ahead, Behind, Beyond, Flatten, Sorted, Framed, Sought, Owned;
      var t := btree.tree;
      Books();
      NothingAhead();
      assert Beyond(lower, Flatten(t)) + Ahead(ahead) == Beyond(lower, Flatten(t));
    }

    /** Searches for the start of the range, from the root down. */
    method SeekForward()
      requires Valid() && !forwardReady && !lower.Unbounded?
      modifies this`forward, this`ahead
      ensures Stack(forward, ahead) && fresh(NodesOf(forward)) && Sought(btree.Contents(), remaining, Ahead(ahead))
    {
      hide NodeStore.Valid, NodeStore.Front, MapHeader, Ahead, Behind, Beyond, Flatten, Sorted, Account, Sought, Owned, Stored, Shape, At, AllFine, Seeking, BTreeMap.Is;
      var node: Node := btree.LoadRoot();
      ghost var t, h := btree.tree, btree.height;
      SeekRoot(node);
      while true
        invariant Seeking(node, t, h) && fresh(node) && fresh(NodesOf(forward))
        decreases h
      {
        var child, i := SeekStep(node, t, h);
        if child == null {
          break;
        }
        node, t, h := child, t.children[i], h - 1;
      }
    }

    lemma GoneEmpty()
      ensures Forward(Gone) == [] && Backward(Gone) == []
      ensures forall t: Tree, h: nat :: Fine(Whole(t, h)) ==> Forward(Whole(t, h)) == Flatten(t) == Backward(Whole(t, h))
    {
    }

    lemma NothingAhead()
      ensures Ahead([]) == [] && Behind([]) == []
    {
    }

    method InitForward()
      requires Valid() && !forwardReady
      modifies this`forward, this`ahead, this`forwardReady
      ensures Valid() && forwardReady && fresh(NodesOf(forward))
    {
      hide NodeStore.Valid, NodeStore.Front, MapHeader, Ahead, Behind, Beyond, Within, Flatten, Sorted, Framed, Stored, Owned, Shape, At, AllFine, Account, Sought, SoughtBack;
      ghost var x, y := Ahead(ahead), Behind(behind);
      Books();
      if lower.Unbounded? {
        ghost var s := RootSpot();
        forward, ahead := [AtAddress(btree.rootAddr)], [s];
      } else {
        SeekForward();
      }
      Started(btree.Contents(), pre, remaining, post, lower, upper, forwardReady, backwardReady, x, y, Ahead(ahead));
      forwardReady := true;
    }

    /** The root, as the place of a first cursor: everything lies on both sides of it. */
    lemma RootSpot() returns (s: Spot)
      requires btree.Valid()
      ensures Stack([AtAddress(btree.rootAddr)], [s]) && Ahead([s]) == btree.Contents() && Behind([s]) == btree.Contents()
      ensures Beyond(Unbounded, btree.Contents()) == btree.Contents() == Within(Unbounded, btree.Contents())
    {
      hide NodeStore.Valid, NodeStore.Front, MapHeader, Ahead, Behind, Flatten, Beyond, Within, Sorted, Owned, Stored;
      s := if btree.rootAddr == NULL then Gone else Whole(btree.tree, btree.height);
      assert [] + [s] == [s];
      NothingAhead();
      Pushed([], s);
      BeyondWithin(Unbounded, Unbounded, btree.Contents());
    }

    // ---- Going on from the front

    /** Reads entry `i` of a node; every cursor stays where it is. */
    method Peek(node: Node, i: nat, ghost t: Tree) returns (e: Entry)
      requires btree.store.Valid() && Stack(forward, ahead) && Stack(backward, behind) && btree.Is(node, t) && i < |t.entries|
      modifies node`entries
      ensures Stack(forward, ahead) && Stack(backward, behind) && btree.Is(node, t) && e == t.entries[i]
    {
      hide NodeStore.Valid, NodeStore.Front, MapHeader, Denote, InPages, Fine, Stored, AllStored;
      label before:
      e := node.LoadEntry(i, btree.store);
      forall k | 0 <= k < |forward|
        ensures At(forward[k], ahead[k])
      {
        assert old@before(At(forward[k], ahead[k]));
      }
      forall k | 0 <= k < |backward|
        ensures At(backward[k], behind[k])
      {
        assert old@before(At(backward[k], behind[k]));
      }
    }

    /** Takes the top cursor off. */
    lemma Popped(cs: seq<Cursor>, ss: seq<Spot>, n: nat)
      requires Stack(cs, ss) && n + 1 == |cs|
      ensures Stack(cs[..n], ss[..n]) && Fine(ss[n]) && At(cs[n], ss[n])
      ensures Ahead(ss) == Forward(ss[n]) + Ahead(ss[..n]) && Behind(ss) == Behind(ss[..n]) + Backward(ss[n])
      ensures |ss| == |cs| && NodesOf(cs[..n]) <= NodesOf(cs) && (cs[n].AtNode? ==> cs[n].node in NodesOf(cs))
    {
      hide Fine;
      assert cs[n] in cs;
    }

    /** Nothing remains when the cursors run out. */
    lemma Exhausted()
      requires Valid()
      ensures (forwardReady && forward == []) || (backwardReady && backward == []) ==> remaining == []
    {
      hide NodeStore.Valid, NodeStore.Front, MapHeader, Flatten, Sorted, Framed, Stored, Owned, Shape;
    }

    /** The first entry that remains, if any. */
    method Next() returns (r: Option<Entry>)
      requires Valid()
      modifies this, NodesOf(forward)
      ensures Valid()
      ensures r == if old(remaining) == [] then None else Some(old(remaining)[0])
      ensures remaining == if old(remaining) == [] then [] else old(remaining)[1..]
      ensures fresh(NodesOf(forward) - old(NodesOf(forward))) && NodesOf(backward) <= old(NodesOf(backward))
    {
      hide Valid;
      if !forwardReady {
        InitForward();
      }
      r := Advance();
    }

    method Advance() returns (r: Option<Entry>)
      requires Valid() && forwardReady
      modifies this, NodesOf(forward)
      ensures Valid()
      ensures r == if old(remaining) == [] then None else Some(old(remaining)[0])
      ensures remaining == if old(remaining) == [] then [] else old(remaining)[1..]
      ensures fresh(NodesOf(forward) - old(NodesOf(forward))) && NodesOf(backward) <= old(NodesOf(backward))
      decreases Depth(ahead)
    {
      hide Valid, Depth;
      if forward == [] {
        Exhausted();
        return None;
      }
      var n := |forward| - 1;
      assert forward[n] in forward;
      var c := forward[n];
      if c.AtNode? && c.next.EntryAt? {
        r := YieldFront(c.node, c.next.i);
      } else {
        if c.AtAddress? {
          OpenFront(c.addr);
        } else {
          EnterFront(c.node, c.next.i);
        }
        r := Advance();
      }
    }

    /** Loads the node the top cursor names. */
    method OpenFront(a: Address)
      requires Valid() && forwardReady && forward != [] && forward[|forward| - 1] == AtAddress(a)
      modifies this`forward, this`ahead
      ensures Valid() && Depth(ahead) < old(Depth(ahead)) && fresh(NodesOf(forward) - old(NodesOf(forward)))
    {
      hide Valid;
      if a == NULL {
        DropFront();
      } else {
        LoadFront(a);
      }
    }

    method DropFront()
      requires Valid() && forwardReady && forward != [] && forward[|forward| - 1] == AtAddress(NULL)
      modifies this`forward, this`ahead
      ensures Valid() && Depth(ahead) < old(Depth(ahead)) && NodesOf(forward) <= old(NodesOf(forward))
    {
      hide NodeStore.Valid, NodeStore.Front, MapHeader, Denote, InPages, Ahead, Behind, Flatten, Sorted, Owned, Account, AllFine, Shape, Stored, AllStored, Forward, Backward;
      var n := |forward| - 1;
      Popped(forward, ahead, n);
      GoneEmpty();
      assert [] + Ahead(ahead[..n]) == Ahead(ahead[..n]);
      forward, ahead := forward[..n], ahead[..n];
    }

    method LoadFront(a: Address)
      requires Valid() && forwardReady && forward != [] && forward[|forward| - 1] == AtAddress(a) && a != NULL
      modifies this`forward, this`ahead
      ensures Valid() && Depth(ahead) < old(Depth(ahead)) && fresh(NodesOf(forward) - old(NodesOf(forward)))
    {
      hide InRange, Framed, Spots.Next, Previous, Roots, KindOf, Node.View, Node.Readable, TopStored;
      hide NodeStore.Valid, NodeStore.Front, MapHeader, Denote, InPages, Ahead, Behind, Flatten, Sorted, Owned, Account, AllFine, Shape, Stored, AllStored, Forward, Backward, At, Fine, Depth, Opened;
      var n := |forward| - 1;
      Popped(forward, ahead, n);
      TopWhole(forward[n], ahead[n], a);
      ghost var s := ahead[n];
      Loadable(s.t, s.h);
      var node := btree.store.LoadNode(a);
      var c := AtNode(node, if node.kind.Internal? then Child(0) else EntryAt(0));
      OpenForward(s.t, s.h);
      OpenedAt(node, s.t, s.h);
      PushedStack(forward[..n], ahead[..n], c, Opened(s.t, s.h));
      OpenedFrontLess(ahead, n);
      forward, ahead := forward[..n] + [c], ahead[..n] + [Opened(s.t, s.h)];
    }

    lemma OpenedAt(node: Node, t: Tree, h: nat)
      requires btree.Is(node, t) && AllStored(btree.store.nodes, t.children) && 0 < |t.entries|
      requires if 0 < h then KindOf(t).Internal? && |t.children| == |t.entries| + 1 else KindOf(t).Leaf?
      ensures At(AtNode(node, if node.kind.Internal? then Child(0) else EntryAt(0)), Opened(t, h))
    {
      hide Denote, InPages, AllStored;
    }

    lemma TopWhole(c: Cursor, s: Spot, a: Address)
      requires At(c, s) && Fine(s) && c == AtAddress(a) && a != NULL
      ensures s.Whole? && s.t.addr == a && Stored(btree.store.nodes, s.t) && 0 < |s.t.entries|
      ensures Forward(s) == Flatten(s.t) == Backward(s)
    {
    }

    /** A stored tree can be loaded. */
    lemma Loadable(t: Tree, h: nat)
      requires Fine(Whole(t, h)) && Stored(btree.store.nodes, t)
      ensures Counted(btree.store.nodes[t.addr]) && TopStored(btree.store.nodes, t) && AllStored(btree.store.nodes, t.children)
      ensures if 0 < h then KindOf(t).Internal? && |t.children| == |t.entries| + 1 else KindOf(t).Leaf?
    {
      TopShape(t, h);
    }

    /** Pushes one cursor, or two. */
    lemma PushedTwo(cs: seq<Cursor>, ss: seq<Spot>, more: bool, c: Cursor, s: Spot, d: Cursor, e: Spot)
      requires Stack(cs, ss) && (more ==> Fine(s) && At(c, s)) && Fine(e) && At(d, e)
      ensures Stack(cs + (if more then [c] else []) + [d], ss + (if more then [s] else []) + [e])
      ensures NodesOf(cs + (if more then [c] else []) + [d]) == NodesOf(cs) + (if more && c.AtNode? then {c.node} else {}) + if d.AtNode? then {d.node} else {}
      ensures Ahead(ss + (if more then [s] else []) + [e]) == Forward(e) + (if more then Forward(s) else []) + Ahead(ss)
      ensures Behind(ss + (if more then [s] else []) + [e]) == Behind(ss) + ((if more then Backward(s) else []) + Backward(e))
    {
      hide Ahead, Behind, Fine, AllFine, At, Forward, Backward, Stack, NodesOf;
      if more {
        PushedStack(cs, ss, c, s);
        PushedStack(cs + [c], ss + [s], d, e);
      } else {
        assert cs + [] == cs && ss + [] == ss;
        PushedStack(cs, ss, d, e);
      }
    }

    /** A child on top of the cursors, and the entry behind it below. */
    lemma EnterStack(cs: seq<Cursor>, ss: seq<Spot>, node: Node, i: nat, ss': seq<Spot>)
      requires btree.store.Valid() && Stack(cs, ss) && cs != [] && cs[|cs| - 1] == AtNode(node, Child(i))
      requires ss' == EnterSpots(ss)
      ensures i < |node.children|
      ensures Stack(EnterCursors(cs, node, i), ss') && NodesOf(EnterCursors(cs, node, i)) <= NodesOf(cs)
      ensures Ahead(ss') == Ahead(ss) && Depth(ss') < Depth(ss)
    {
      hide NodeStore.Valid, NodeStore.Front, Denote, InPages, Ahead, Behind, Flatten, Forward, Shape, AllStored, Stored, Node.Readable, At, Fine, AllFine, Depth, NodesOf, Stack;
      var n := |cs| - 1;
      Popped(cs, ss, n);
      assert ss == ss[..n] + [ss[n]];
      ChildKind(node, i, ss[n]);
      var t, h := ss[n].t, ss[n].h;
      ChildForward(t, h, i);
      EntrySpot(node, t, h, i, i);
      ChildSpot(t, h, i);
      PushedTwo(cs[..n], ss[..n], i < |node.entries|, AtNode(node, EntryAt(i)), AtEntry(t, h, i), AtAddress(node.children[i]), Whole(t.children[i], h - 1));
      DepthOf(ss[..n], ss[n]);
      DepthOf(ss[..n] + (if i < |node.entries| then [AtEntry(t, h, i)] else []), Whole(t.children[i], h - 1));
    }

    function EnterCursors(cs: seq<Cursor>, node: Node, i: nat): seq<Cursor>
      requires cs != [] && i < |node.children|
      reads node
    {
      cs[..|cs| - 1] + (if i < |node.entries| then [AtNode(node, EntryAt(i))] else []) + [AtAddress(node.children[i])]
    }

    ghost function EnterSpots(ss: seq<Spot>): seq<Spot> {
      if ss == [] || !ss[|ss| - 1].AtChild? then ss
      else
        var s := ss[|ss| - 1];
        if s.h == 0 || |s.t.children| <= s.i then ss
        else
          ss[..|ss| - 1] + (if s.i < |s.t.entries| then [AtEntry(s.t, s.h, s.i)] else []) + [Whole(s.t.children[s.i], s.h - 1)]
    }

    /** The cursor at a child says where the entries of the node are. */
    lemma EntrySpot(node: Node, t: Tree, h: nat, i: nat, j: nat)
      requires Fine(AtChild(t, h, i)) && At(AtNode(node, Child(i)), AtChild(t, h, i))
      ensures 0 < h && |node.entries| == |t.entries| && |node.children| == |t.entries| + 1 == |t.children|
      ensures node.children[i] == t.children[i].addr && AllStored(btree.store.nodes, t.children)
      ensures j < |t.entries| ==> Fine(AtEntry(t, h, j)) && At(AtNode(node, EntryAt(j)), AtEntry(t, h, j))
    {
      hide Denote, InPages, Stored, AllStored, Flatten;
    }

    /** What kind of place a cursor at a child is at. */
    lemma ChildKind(node: Node, i: nat, s: Spot)
      requires At(AtNode(node, Child(i)), s)
      ensures s.AtChild? && s.i == i
    {
    }

    lemma ChildSpot(t: Tree, h: nat, i: nat)
      requires btree.store.Valid() && Fine(AtChild(t, h, i)) && AllStored(btree.store.nodes, t.children)
      ensures i < |t.children| == |t.entries| + 1 && Fine(Whole(t.children[i], h - 1))
      ensures At(AtAddress(t.children[i].addr), Whole(t.children[i], h - 1))
    {
      hide NodeStore.Valid, NodeStore.Front;
      ChildShape(t, h, i);
      btree.store.NoNull();
      assert Stored(btree.store.nodes, t.children[i]);
    }

    /** Puts a child on top of the cursors, and the entry behind it below. */
    method EnterFront(node: Node, i: nat)
      requires Valid() && forwardReady && forward != [] && forward[|forward| - 1] == AtNode(node, Child(i))
      modifies this`forward, this`ahead
      ensures Valid() && Depth(ahead) < old(Depth(ahead)) && NodesOf(forward) <= old(NodesOf(forward))
    {
      hide NodeStore.Valid, NodeStore.Front, MapHeader, Ahead, Behind, Flatten, Sorted, Owned, Account, AllFine, Depth, At, Stored, Shape;
      ghost var ss := EnterSpots(ahead);
      EnterStack(forward, ahead, node, i, ss);
      forward, ahead := EnterCursors(forward, node, i), ss;
    }

    /** The place after entry `i`, as a cursor. */
    lemma NextStack(cs: seq<Cursor>, ss: seq<Spot>, node: Node, i: nat, t: Tree, h: nat)
      requires Stack(cs, ss) && Fine(AtEntry(t, h, i)) && At(AtNode(node, EntryAt(i)), AtEntry(t, h, i))
      ensures var cs' := cs + (if node.kind.Internal? then [AtNode(node, Child(i + 1))]
                               else if i + 1 < |node.entries| then [AtNode(node, EntryAt(i + 1))] else []);
              Stack(cs', ss + Spots.Next(t, h, i)) && NodesOf(cs') <= NodesOf(cs) + {node}
    {
      hide Ahead, Behind, Flatten, Denote, InPages;
      TopShape(t, h);
      EntryForward(t, h, i, ss);
    }

    /** Takes the entry the top cursor is at, if it is in range; otherwise the iteration is over. */
    method YieldFront(node: Node, i: nat) returns (r: Option<Entry>)
      requires Valid() && forwardReady && forward != [] && forward[|forward| - 1] == AtNode(node, EntryAt(i))
      modifies this, node`entries
      ensures Valid()
      ensures r == if old(remaining) == [] then None else Some(old(remaining)[0])
      ensures remaining == if old(remaining) == [] then [] else old(remaining)[1..]
      ensures NodesOf(forward) <= old(NodesOf(forward)) && NodesOf(backward) <= old(NodesOf(backward))
    {
      hide Inside, AllFine, NodeStore.Valid, NodeStore.Front, MapHeader, Denote, InPages, Ahead, Behind, Flatten, Sorted, Owned, Forward, Account, Stored, AllStored, Shape, Node.Readable, Node.View, Spots.Next, Backward;
      var n := |forward| - 1;
      Popped(forward, ahead, n);
      ghost var t, h := ahead[n].t, ahead[n].h;
      forward, ahead := forward[..n], ahead[..n];
      var e := Peek(node, i, t);
      btree.ContentsSorted();
      EntryForward(t, h, i, ahead);
      TakeFirst(btree.Contents(), pre, remaining, post, lower, upper, backwardReady, e, Ahead(ahead + Spots.Next(t, h, i)), Behind(behind));
      if !Inside(lower, upper, e.key) {
        Stop();
        r := None;
      } else {
        r := Some(e);
        StepFront(node, i, e, t, h);
      }
    }

    /** Clears the cursors: nothing remains. */
    method Stop()
      requires btree.Valid() && Account(btree.Contents(), pre, remaining, post, lower, upper, forwardReady, backwardReady, [], [])
      requires (forwardReady || lower.Unbounded? || btree.rootAddr != NULL) && (backwardReady || upper.Unbounded? || btree.rootAddr != NULL)
      modifies this`forward, this`backward, this`ahead, this`behind
      ensures Valid() && forward == [] && backward == []
    {
      hide NodeStore.Valid, NodeStore.Front, MapHeader, Ahead, Behind, Flatten, Sorted, Owned, Stored, Shape, Account;
      forward, backward, ahead, behind := [], [], [], [];
      NothingAhead();
    }

    /** Moves past entry `i`. */
    method StepFront(node: Node, i: nat, e: Entry, ghost t: Tree, ghost h: nat)
      requires btree.Valid() && Stack(forward, ahead) && Stack(backward, behind) && forwardReady && remaining != []
      requires Fine(AtEntry(t, h, i)) && At(AtNode(node, EntryAt(i)), AtEntry(t, h, i)) && AllFine(ahead + Spots.Next(t, h, i))
      requires Account(btree.Contents(), pre + [e], remaining[1..], post, Excluded(e.key), upper, true, backwardReady, Ahead(ahead + Spots.Next(t, h, i)), Behind(behind))
      requires !backwardReady ==> backward == [] && (upper.Unbounded? || btree.rootAddr != NULL)
      modifies this`forward, this`ahead, this`lower, this`pre, this`remaining
      ensures Valid() && remaining == old(remaining)[1..] && NodesOf(forward) <= old(NodesOf(forward)) + {node}
    {
      hide NodeStore.Valid, NodeStore.Front, MapHeader, Denote, InPages, Ahead, Behind, Flatten, Sorted, Owned, Forward, Account, Stored, Shape, Spots.Next, At, AllFine, Fine;
      NextStack(forward, ahead, node, i, t, h);
      lower := Excluded(e.key);
      pre, remaining, ahead := pre + [e], remaining[1..], ahead + Spots.Next(t, h, i);
      forward := forward + if node.kind.Internal? then [AtNode(node, Child(i + 1))]
                           else if i + 1 < |node.entries| then [AtNode(node, EntryAt(i + 1))] else [];
    }

    // ---- Starting from the back

    /** Entry `j - 1` and what precedes it, if entry `j - 1` is in range. */
    method PushEntryBack(node: Node, j: nat, ghost t: Tree, ghost h: nat, ghost x: seq<Entry>)
      requires btree.store.Valid() && Stack(backward, behind) && btree.Is(node, t) && AllStored(btree.store.nodes, t.children) && node !in NodesOf(backward)
      requires Shape(t, h) && j <= |t.entries| && (forall e :: e in remaining ==> Inside(lower, upper, e.key))
      requires SoughtBack(btree.Contents(), remaining, Behind(behind) + LeftOf(t, j) + x)
      modifies this`backward, this`behind, node`entries
      ensures Stack(backward, behind) && btree.Is(node, t) && NodesOf(backward) <= old(NodesOf(backward)) + {node}
      ensures SoughtBack(btree.Contents(), remaining, Behind(behind) + x)
    {
      hide NodeStore.Valid, NodeStore.Front, MapHeader, Denote, InPages, LeftOf, Ahead, Behind, SoughtBack;
      NoEnds(t);
      if 0 < j {
        AroundEntry(t, j - 1);
        var k := node.Key(j - 1, btree.store);
        if Inside(lower, upper, k) {
          PushedStack(backward, behind, AtNode(node, EntryAt(j - 1)), AtEntry(t, h, j - 1));
          backward, behind := backward + [AtNode(node, EntryAt(j - 1))], behind + [AtEntry(t, h, j - 1)];
        } else {
          LeaveOutBack(btree.Contents(), remaining, Behind(behind), LeftOf(t, j), x, lower, upper);
        }
      } else {
        assert Behind(behind) + LeftOf(t, j) == Behind(behind);
      }
    }

    /** The node whose entries are searched for the end of the range. */
    ghost predicate SeekingBack(node: Node, t: Tree, h: nat)
      reads this, btree, btree.store.Footprint(), node, NodesOf(backward)
    {
      && btree.Valid() && Stack(backward, behind) && btree.Is(node, t) && Stored(btree.store.nodes, t) && node !in NodesOf(backward)
      && Fine(Whole(t, h)) && Sorted(Flatten(t)) && !upper.Unbounded? && (forall e :: e in remaining ==> Inside(lower, upper, e.key))
      && SoughtBack(btree.Contents(), remaining, Behind(behind) + Within(upper, Flatten(t)))
    }

    /** The key of the bound is entry `i`. */
    method SeekFoundBack(node: Node, i: nat, ghost t: Tree, ghost h: nat)
      requires SeekingBack(node, t, h) && i < |t.entries| && t.entries[i].key == upper.key
      modifies this`backward, this`behind, node`entries
      ensures Stack(backward, behind) && SoughtBack(btree.Contents(), remaining, Behind(behind))
      ensures NodesOf(backward) <= old(NodesOf(backward)) + {node}
    {
      hide NodeStore.Valid, NodeStore.Front, MapHeader, Denote, InPages, LeftOf, Ahead, Behind, SoughtBack, Within, Flatten, Parts, Sorted;
      EntryWithin(t, i, upper);
      if upper.Included? {
        PushedStack(backward, behind, AtNode(node, EntryAt(i)), AtEntry(t, h, i));
        backward, behind := backward + [AtNode(node, EntryAt(i))], behind + [AtEntry(t, h, i)];
      } else {
        assert Behind(behind) + (LeftOf(t, i) + Parts(t)[i]) == Behind(behind) + LeftOf(t, i) + Parts(t)[i];
        PushEntryBack(node, i, t, h, Parts(t)[i]);
        PartsOf(t, h, i);
        if node.kind.Internal? {
          ChildShape(t, h, i);
          ChildStored(btree.store.nodes, t, i);
          btree.store.NoNull();
          ghost var s := Whole(t.children[i], h - 1);
          PushedStack(backward, behind, AtAddress(node.children[i]), s);
          backward, behind := backward + [AtAddress(node.children[i])], behind + [s];
        } else {
          assert Behind(behind) + [] == Behind(behind);
        }
      }
    }

    /** The key of the bound is in gap `i`: the search goes on in child `i`, if there is one. */
    method SeekMissingBack(node: Node, i: nat, ghost t: Tree, ghost h: nat) returns (child: Node?)
      requires SeekingBack(node, t, h) && Gap(t.entries, i, upper.key)
      modifies this`backward, this`behind, node`entries
      ensures NodesOf(backward) <= old(NodesOf(backward)) + {node}
      ensures child == null ==> Stack(backward, behind) && SoughtBack(btree.Contents(), remaining, Behind(behind))
      ensures child != null ==> fresh(child) && 0 < h && i < |t.children| && SeekingBack(child, t.children[i], h - 1)
    {
      hide NodeStore.Valid, NodeStore.Front, MapHeader, Denote, InPages, LeftOf, Ahead, Behind, SoughtBack, Within, Flatten, Parts, Sorted;
      GapWithin(t, i, upper);
      ghost var x := Within(upper, Parts(t)[i]);
      assert Behind(behind) + (LeftOf(t, i) + x) == Behind(behind) + LeftOf(t, i) + x;
      child := null;
      PartsOf(t, h, i);
      if node.kind.Internal? {
        child := btree.LoadChild(node, i, t, h);
      }
      PushEntryBack(node, i, t, h, x);
      if child == null {
        NothingBeyond(upper, upper);
        assert Behind(behind) + [] == Behind(behind);
      } else {
        ChildShape(t, h, i);
        ChildStored(btree.store.nodes, t, i);
        ChildSorted(t, i);
      }
    }

    /** Searches one node, and loads the child to search next. */
    method SeekStepBack(node: Node, ghost t: Tree, ghost h: nat) returns (child: Node?, i: nat)
      requires SeekingBack(node, t, h)
      modifies this`backward, this`behind, node`entries
      ensures NodesOf(backward) <= old(NodesOf(backward)) + {node}
      ensures child == null ==> Stack(backward, behind) && SoughtBack(btree.Contents(), remaining, Behind(behind))
      ensures child != null ==> fresh(child) && 0 < h && i < |t.children| && SeekingBack(child, t.children[i], h - 1)
    {
      hide NodeStore.Valid, NodeStore.Front, MapHeader, Denote, InPages, Ahead, Behind, Within, Flatten, Sorted, SoughtBack, Owned, Stored, Shape, At;
      EntriesSorted(t);
      var s := node.Search(upper.key, btree.store);
      child, i := null, s.index;
      if s.Found? {
        SeekFoundBack(node, i, t, h);
      } else {
        child := SeekMissingBack(node, i, t, h);
      }
    }

    /** The root is the first node to be searched. */
    lemma SeekRootBack(node: Node)
      requires Valid() && !backwardReady && !upper.Unbounded? && node !in NodesOf(backward)
      requires btree.rootAddr != NULL && btree.Is(node, btree.tree)
      ensures SeekingBack(node, btree.tree, btree.height)
    {
      hide NodeStore.Valid, NodeStore.Front, MapHeader, Denote, InPages, Ahead, Behind, Within, Flatten, Sorted, Framed, SoughtBack, Owned;
      var t := btree.tree;
      Books();
      NothingAhead();
      assert Behind(behind) + Within(upper, Flatten(t)) == Within(upper, Flatten(t));
    }

    /** Searches for the end of the range, from the root down. */
    method SeekBackward()
      requires Valid() && !backwardReady && !upper.Unbounded?
      modifies this`backward, this`behind
      ensures Stack(backward, behind) && fresh(NodesOf(backward)) && SoughtBack(btree.Contents(), remaining, Behind(behind))
    {
      hide NodeStore.Valid, NodeStore.Front, MapHeader, Ahead, Behind, Within, Flatten, Sorted, Account, SoughtBack, Owned, Stored, Shape, At, AllFine, SeekingBack, BTreeMap.Is;
      var node: Node := btree.LoadRoot();
      ghost var t, h := btree.tree, btree.height;
      SeekRootBack(node);
      while true
        invariant SeekingBack(node, t, h) && fresh(node) && fresh(NodesOf(backward))
        decreases h
      {
        var child, i := SeekStepBack(node, t, h);
        if child == null {
          break;
        }
        node, t, h := child, t.children[i], h - 1;
      }
    }

    method InitBackward()
      requires Valid() && !backwardReady
      modifies this`backward, this`behind, this`backwardReady
      ensures Valid() && backwardReady && fresh(NodesOf(backward))
    {
      hide NodeStore.Valid, NodeStore.Front, MapHeader, Ahead, Behind, Beyond, Within, Flatten, Sorted, Framed, Stored, Owned, Shape, At, AllFine, Account, Sought, SoughtBack;
      ghost var x, y := Ahead(ahead), Behind(behind);
      Books();
      if upper.Unbounded? {
        ghost var s := RootSpot();
        backward, behind := [AtAddress(btree.rootAddr)], [s];
      } else {
        SeekBackward();
      }
      Started(btree.Contents(), pre, remaining, post, lower, upper, forwardReady, backwardReady, x, y, Behind(behind));
      backwardReady := true;
    }

    // ---- Going on from the back

    /** The last entry that remains, if any. */
    method NextBack() returns (r: Option<Entry>)
      requires Valid()
      modifies this, NodesOf(backward)
      ensures Valid()
      ensures r == if old(remaining) == [] then None else Some(old(remaining)[|old(remaining)| - 1])
      ensures remaining == if old(remaining) == [] then [] else old(remaining)[..|old(remaining)| - 1]
      ensures fresh(NodesOf(backward) - old(NodesOf(backward))) && NodesOf(forward) <= old(NodesOf(forward))
    {
      hide Valid;
      if !backwardReady {
        InitBackward();
      }
      r := Retreat();
    }

    method Retreat() returns (r: Option<Entry>)
      requires Valid() && backwardReady
      modifies this, NodesOf(backward)
      ensures Valid()
      ensures r == if old(remaining) == [] then None else Some(old(remaining)[|old(remaining)| - 1])
      ensures remaining == if old(remaining) == [] then [] else old(remaining)[..|old(remaining)| - 1]
      ensures fresh(NodesOf(backward) - old(NodesOf(backward))) && NodesOf(forward) <= old(NodesOf(forward))
      decreases Depth(behind)
    {
      hide Valid, Depth;
      if backward == [] {
        Exhausted();
        return None;
      }
      var n := |backward| - 1;
      assert backward[n] in backward;
      var c := backward[n];
      if c.AtNode? && c.next.EntryAt? {
        r := YieldBack(c.node, c.next.i);
      } else {
        if c.AtAddress? {
          OpenBack(c.addr);
        } else {
          EnterBack(c.node, c.next.i);
        }
        r := Retreat();
      }
    }

    method OpenBack(a: Address)
      requires Valid() && backwardReady && backward != [] && backward[|backward| - 1] == AtAddress(a)
      modifies this`backward, this`behind
      ensures Valid() && Depth(behind) < old(Depth(behind)) && fresh(NodesOf(backward) - old(NodesOf(backward)))
    {
      hide Valid;
      if a == NULL {
        DropBack();
      } else {
        LoadBack(a);
      }
    }

    method DropBack()
      requires Valid() && backwardReady && backward != [] && backward[|backward| - 1] == AtAddress(NULL)
      modifies this`backward, this`behind
      ensures Valid() && Depth(behind) < old(Depth(behind)) && NodesOf(backward) <= old(NodesOf(backward))
    {
      hide NodeStore.Valid, NodeStore.Front, MapHeader, Denote, InPages, Ahead, Behind, Flatten, Sorted, Owned, Account, AllFine, Shape, Stored, AllStored, Forward, Backward;
      var n := |backward| - 1;
      Popped(backward, behind, n);
      GoneEmpty();
      assert Behind(behind[..n]) + [] == Behind(behind[..n]);
      backward, behind := backward[..n], behind[..n];
    }

    method LoadBack(a: Address)
      requires Valid() && backwardReady && backward != [] && backward[|backward| - 1] == AtAddress(a) && a != NULL
      modifies this`backward, this`behind
      ensures Valid() && Depth(behind) < old(Depth(behind)) && fresh(NodesOf(backward) - old(NodesOf(backward)))
    {
      hide InRange, Framed, Spots.Next, Previous, Roots, KindOf, Node.View, Node.Readable, TopStored;
      hide NodeStore.Valid, NodeStore.Front, MapHeader, Denote, InPages, Ahead, Behind, Flatten, Sorted, Owned, Account, AllFine, Shape, Stored, AllStored, Forward, Backward, At, Fine, Depth, OpenedBack;
      var n := |backward| - 1;
      Popped(backward, behind, n);
      TopWhole(backward[n], behind[n], a);
      ghost var s := behind[n];
      Loadable(s.t, s.h);
      var node := btree.store.LoadNode(a);
      var c := AtNode(node, if node.kind.Internal? then Child(|node.children| - 1) else EntryAt(|node.entries| - 1));
      OpenBackward(s.t, s.h);
      OpenedBackAt(node, s.t, s.h);
      PushedStack(backward[..n], behind[..n], c, OpenedBack(s.t, s.h));
      OpenedBackLess(behind, n);
      backward, behind := backward[..n] + [c], behind[..n] + [OpenedBack(s.t, s.h)];
    }

    lemma OpenedBackAt(node: Node, t: Tree, h: nat)
      requires btree.Is(node, t) && AllStored(btree.store.nodes, t.children) && 0 < |t.entries|
      requires if 0 < h then KindOf(t).Internal? && |t.children| == |t.entries| + 1 else KindOf(t).Leaf?
      ensures At(AtNode(node, if node.kind.Internal? then Child(|node.children| - 1) else EntryAt(|node.entries| - 1)), OpenedBack(t, h))
    {
      hide Denote, InPages, AllStored;
    }

    lemma EnterStackBack(cs: seq<Cursor>, ss: seq<Spot>, node: Node, i: nat, ss': seq<Spot>)
      requires btree.store.Valid() && Stack(cs, ss) && cs != [] && cs[|cs| - 1] == AtNode(node, Child(i))
      requires ss' == EnterSpotsBack(ss)
      ensures i < |node.children|
      ensures Stack(EnterCursorsBack(cs, node, i), ss') && NodesOf(EnterCursorsBack(cs, node, i)) <= NodesOf(cs)
      ensures Behind(ss') == Behind(ss) && Depth(ss') < Depth(ss)
    {
      hide NodeStore.Valid, NodeStore.Front, Denote, InPages, Ahead, Behind, Flatten, Backward, Shape, AllStored, Stored, Node.Readable, At, Fine, AllFine, Depth, NodesOf, Stack;
      var n := |cs| - 1;
      Popped(cs, ss, n);
      assert ss == ss[..n] + [ss[n]];
      ChildKind(node, i, ss[n]);
      var t, h := ss[n].t, ss[n].h;
      ChildBackward(t, h, i);
      var j := if 0 < i then i - 1 else 0;
      EntrySpot(node, t, h, i, j);
      ChildSpot(t, h, i);
      PushedTwo(cs[..n], ss[..n], 0 < i, AtNode(node, EntryAt(j)), AtEntry(t, h, j), AtAddress(node.children[i]), Whole(t.children[i], h - 1));
      DepthOf(ss[..n], ss[n]);
      DepthOf(ss[..n] + (if 0 < i then [AtEntry(t, h, j)] else []), Whole(t.children[i], h - 1));
    }

    function EnterCursorsBack(cs: seq<Cursor>, node: Node, i: nat): seq<Cursor>
      requires cs != [] && i < |node.children|
      reads node
    {
      cs[..|cs| - 1] + (if 0 < i then [AtNode(node, EntryAt(i - 1))] else []) + [AtAddress(node.children[i])]
    }

    ghost function EnterSpotsBack(ss: seq<Spot>): seq<Spot> {
      if ss == [] || !ss[|ss| - 1].AtChild? then ss
      else
        var s := ss[|ss| - 1];
        if s.h == 0 || |s.t.children| <= s.i then ss
        else
          ss[..|ss| - 1] + (if 0 < s.i then [AtEntry(s.t, s.h, s.i - 1)] else []) + [Whole(s.t.children[s.i], s.h - 1)]
    }

    method EnterBack(node: Node, i: nat)
      requires Valid() && backwardReady && backward != [] && backward[|backward| - 1] == AtNode(node, Child(i))
      modifies this`backward, this`behind
      ensures Valid() && Depth(behind) < old(Depth(behind)) && NodesOf(backward) <= old(NodesOf(backward))
    {
      hide NodeStore.Valid, NodeStore.Front, MapHeader, Ahead, Behind, Flatten, Sorted, Owned, Account, AllFine, Depth, At, Stored, Shape;
      ghost var ss := EnterSpotsBack(behind);
      EnterStackBack(backward, behind, node, i, ss);
      backward, behind := EnterCursorsBack(backward, node, i), ss;
    }

    /** The place before entry `i`, as a cursor. */
    lemma PreviousStack(cs: seq<Cursor>, ss: seq<Spot>, node: Node, i: nat, t: Tree, h: nat)
      requires Stack(cs, ss) && Fine(AtEntry(t, h, i)) && At(AtNode(node, EntryAt(i)), AtEntry(t, h, i))
      ensures var cs' := cs + (if node.kind.Internal? then [AtNode(node, Child(i))]
                               else if 0 < i then [AtNode(node, EntryAt(i - 1))] else []);
              Stack(cs', ss + Previous(t, h, i)) && NodesOf(cs') <= NodesOf(cs) + {node}
    {
      hide Ahead, Behind, Flatten, Denote, InPages;
      TopShape(t, h);
      EntryBackward(t, h, i, ss);
    }

    method YieldBack(node: Node, i: nat) returns (r: Option<Entry>)
      requires Valid() && backwardReady && backward != [] && backward[|backward| - 1] == AtNode(node, EntryAt(i))
      modifies this, node`entries
      ensures Valid()
      ensures r == if old(remaining) == [] then None else Some(old(remaining)[|old(remaining)| - 1])
      ensures remaining == if old(remaining) == [] then [] else old(remaining)[..|old(remaining)| - 1]
      ensures NodesOf(backward) <= old(NodesOf(backward)) && NodesOf(forward) <= old(NodesOf(forward))
    {
      hide Inside, AllFine, NodeStore.Valid, NodeStore.Front, MapHeader, Denote, InPages, Ahead, Behind, Flatten, Sorted, Owned, Backward, Account, Stored, AllStored, Shape, Node.Readable, Node.View, Previous, Forward;
      var n := |backward| - 1;
      Popped(backward, behind, n);
      ghost var t, h := behind[n].t, behind[n].h;
      backward, behind := backward[..n], behind[..n];
      var e := Peek(node, i, t);
      btree.ContentsSorted();
      EntryBackward(t, h, i, behind);
      TakeLast(btree.Contents(), pre, remaining, post, lower, upper, forwardReady, e, Ahead(ahead), Behind(behind + Previous(t, h, i)));
      if !Inside(lower, upper, e.key) {
        Stop();
        r := None;
      } else {
        r := Some(e);
        StepBack(node, i, e, t, h);
      }
    }

    method StepBack(node: Node, i: nat, e: Entry, ghost t: Tree, ghost h: nat)
      requires btree.Valid() && Stack(forward, ahead) && Stack(backward, behind) && backwardReady && remaining != []
      requires Fine(AtEntry(t, h, i)) && At(AtNode(node, EntryAt(i)), AtEntry(t, h, i)) && AllFine(behind + Previous(t, h, i))
      requires Account(btree.Contents(), pre, remaining[..|remaining| - 1], [e] + post, lower, Excluded(e.key), forwardReady, true, Ahead(ahead), Behind(behind + Previous(t, h, i)))
      requires !forwardReady ==> forward == [] && (lower.Unbounded? || btree.rootAddr != NULL)
      modifies this`backward, this`behind, this`upper, this`post, this`remaining
      ensures Valid() && remaining == old(remaining)[..|old(remaining)| - 1] && NodesOf(backward) <= old(NodesOf(backward)) + {node}
    {
      hide NodeStore.Valid, NodeStore.Front, MapHeader, Denote, InPages, Ahead, Behind, Flatten, Sorted, Owned, Backward, Account, Stored, Shape, Previous, At, AllFine, Fine;
      PreviousStack(backward, behind, node, i, t, h);
      upper := Excluded(e.key);
      post, remaining, behind := [e] + post, remaining[..|remaining| - 1], behind + Previous(t, h, i);
      backward := backward + if node.kind.Internal? then [AtNode(node, Child(i))]
                             else if 0 < i then [AtNode(node, EntryAt(i - 1))] else [];
    }

    // ---- Runs

    /** Takes the next `n` entries, or as many as remain. */
    method Take(n: nat) returns (es: seq<Entry>)
      requires Valid()
      modifies this, NodesOf(forward)
      ensures Valid()
      ensures var m := if n < |old(remaining)| then n else |old(remaining)|;
              es == old(remaining)[..m] && remaining == old(remaining)[m..]
    {
      hide Valid;
      es := [];
      while |es| < n
        invariant Valid() && fresh(NodesOf(forward) - old(NodesOf(forward)))
        invariant |es| <= n && |es| <= |old(remaining)| && es == old(remaining)[..|es|] && remaining == old(remaining)[|es|..]
      {
        var r := Next();
        if r.None? {
          break;
        }
        es := es + [r.value];
      }
    }

    /** Counts what remains, using it up. */
    method Count() returns (n: nat)
      requires Valid()
      modifies this, NodesOf(forward)
      ensures Valid() && n == |old(remaining)| && remaining == []
    {
      hide Valid;
      n := 0;
      var r := Next();
      while r.Some?
        invariant Valid() && fresh(NodesOf(forward) - old(NodesOf(forward)))
        invariant r.Some? ==> n + 1 + |remaining| == |old(remaining)|
        invariant r.None? ==> n == |old(remaining)| && remaining == []
        decreases |remaining| + if r.Some? then 1 else 0
      {
        n := n + 1;
        r := Next();
      }
    }

    /** Any interleaving of calls at the two ends: `front[k]` says which end call `k` is made at. What comes
        from the front, what is left and what comes from the back, taken backwards, make up what there was;
        a call comes back empty exactly when nothing is left, and from then on all do. */
    method Interleave(front: seq<bool>) returns (results: seq<Option<Entry>>)
      requires Valid()
      modifies this, NodesOf(forward), NodesOf(backward)
      ensures Valid() && |results| == |front|
      ensures old(remaining) == FromFront(front, results) + remaining + FromBack(front, results)
      ensures forall k :: 0 <= k < |front| ==> (results[k].None? <==> |old(remaining)| <= k)
    {
      hide Valid, FromFront, FromBack;
      results := [];
      NoResults();
      for k := 0 to |front|
        invariant Valid() && fresh(NodesOf(forward) - old(NodesOf(forward))) && fresh(NodesOf(backward) - old(NodesOf(backward)))
        invariant |results| == k && |remaining| == if k <= |old(remaining)| then |old(remaining)| - k else 0
        invariant old(remaining) == FromFront(front[..k], results) + remaining + FromBack(front[..k], results)
        invariant forall j :: 0 <= j < k ==> (results[j].None? <==> |old(remaining)| <= j)
      {
        ghost var rem := remaining;
        var r: Option<Entry>;
        if front[k] {
          r := Next();
          MovedFront(FromFront(front[..k], results), rem, remaining, FromBack(front[..k], results), r);
        } else {
          r := NextBack();
          MovedBack(FromFront(front[..k], results), rem, remaining, FromBack(front[..k], results), r);
        }
        OneResult(front[..k], results, front[k], r);
        assert front[..k + 1] == front[..k] + [front[k]];
        results := results + [r];
      }
      assert front[..|front|] == front;
    }
  }

  /** What a run of calls took from the front, in the order of the calls. */
  ghost function FromFront(front: seq<bool>, results: seq<Option<Entry>>): seq<Entry>
    requires |front| == |results|
  {
    if front == [] then []
    else
      var n := |front| - 1;
      FromFront(front[..n], results[..n]) + if front[n] && results[n].Some? then [results[n].value] else []
  }

  /** What a run of calls took from the back, the last call first. */
  ghost function FromBack(front: seq<bool>, results: seq<Option<Entry>>): seq<Entry>
    requires |front| == |results|
  {
    if front == [] then []
    else
      var n := |front| - 1;
      (if !front[n] && results[n].Some? then [results[n].value] else []) + FromBack(front[..n], results[..n])
  }

  lemma {:induction false} MovedFront(f: seq<Entry>, rem: seq<Entry>, rest: seq<Entry>, b: seq<Entry>, r: Option<Entry>)
    requires r == if rem == [] then None else Some(rem[0])
    requires rest == if rem == [] then [] else rem[1..]
    ensures f + rem + b == f + (if r.Some? then [r.value] else []) + rest + b
  {
    assert rem != [] ==> rem == [rem[0]] + rest;
  }

  lemma {:induction false} MovedBack(f: seq<Entry>, rem: seq<Entry>, rest: seq<Entry>, b: seq<Entry>, r: Option<Entry>)
    requires r == if rem == [] then None else Some(rem[|rem| - 1])
    requires rest == if rem == [] then [] else rem[..|rem| - 1]
    ensures f + rem + b == f + rest + ((if r.Some? then [r.value] else []) + b)
  {
    if rem != [] {
      var x := [rem[|rem| - 1]];
      assert rem == rest + x;
      assert f + (rest + x) + b == f + rest + (x + b);
    }
  }

  lemma {:induction false} NoResults()
    ensures FromFront([], []) == [] && FromBack([], []) == []
  {
  }

  lemma {:induction false} OneResult(front: seq<bool>, results: seq<Option<Entry>>, b: bool, r: Option<Entry>)
    requires |front| == |results|
    ensures FromFront(front + [b], results + [r]) == FromFront(front, results) + if b && r.Some? then [r.value] else []
    ensures FromBack(front + [b], results + [r]) == (if !b && r.Some? then [r.value] else []) + FromBack(front, results)
  {
    assert (front + [b])[..|front|] == front && (results + [r])[..|front|] == results;
  }

  /** The entries from the last key below `bound` on; none if there is no such key. */
  method FromPrevKey(btree: BTreeMap, bound: Key) returns (it: RangeIter)
    requires btree.Valid()
    ensures fresh(it) && it.Valid() && it.btree == btree
    ensures var below := InRange(btree.Contents(), Unbounded, Excluded(bound));
            it.remaining == if below == [] then [] else InRange(btree.Contents(), Included(below[|below| - 1].key), Unbounded)
  {
    hide RangeIter.Valid, NodeStore.Valid, NodeStore.Front, MapHeader, InRange, Stored, Owned, Shape, Sorted, Flatten;
    var before := new RangeIter(btree, Unbounded, Excluded(bound));
    var e := before.NextBack();
    if e.Some? {
      it := new RangeIter(btree, Included(e.value.key), Unbounded);
    } else {
      it := new RangeIter.Null(btree);
    }
  }
}
