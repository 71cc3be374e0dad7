/** Places in a tree, and what lies ahead of and behind a stack of them. */
module Spots {
  import opened Types
  import opened SortedSeq
  import opened Trees
  import opened Ranges

  /** A place in a subtree of height `h`: all of it, one of its children, or one of its entries. */
  datatype Spot =
    | Gone
    | Whole(t: Tree, h: nat)
    | AtChild(t: Tree, h: nat, i: nat)
    | AtEntry(t: Tree, h: nat, i: nat)

  ghost predicate Fine(s: Spot) {
    match s
    case Gone => true
    case Whole(t, h) => Shape(t, h) && 0 < |t.entries|
    case AtChild(t, h, i) => Shape(t, h) && 0 < h && i <= |t.entries|
    case AtEntry(t, h, i) => Shape(t, h) && i < |t.entries|
  }

  /** The entries from a place on. */
  ghost function Forward(s: Spot): seq<Entry>
    requires Fine(s)
  {
    match s
    case Gone => []
    case Whole(t, h) => Flatten(t)
    case AtChild(t, h, i) => Parts(t)[i] + RightOf(t, i)
    case AtEntry(t, h, i) => RightOf(t, i)
  }

  /** The entries up to a place. */
  ghost function Backward(s: Spot): seq<Entry>
    requires Fine(s)
  {
    match s
    case Gone => []
    case Whole(t, h) => Flatten(t)
    case AtChild(t, h, i) => LeftOf(t, i) + Parts(t)[i]
    case AtEntry(t, h, i) => LeftOf(t, i + 1)
  }

  ghost predicate AllFine(ss: seq<Spot>) {
    forall i :: 0 <= i < |ss| ==> Fine(ss[i])
  }

  /** What a stack of places, the last on top, has ahead. */
  ghost function Ahead(ss: seq<Spot>): seq<Entry>
    requires AllFine(ss)
  {
    if ss == [] then [] else Forward(ss[|ss| - 1]) + Ahead(ss[..|ss| - 1])
  }

  ghost function Behind(ss: seq<Spot>): seq<Entry>
    requires AllFine(ss)
  {
    if ss == [] then [] else Behind(ss[..|ss| - 1]) + Backward(ss[|ss| - 1])
  }

  lemma {:induction false} Pushed(ss: seq<Spot>, s: Spot)
    requires AllFine(ss) && Fine(s)
    ensures AllFine(ss + [s])
    ensures Ahead(ss + [s]) == Forward(s) + Ahead(ss)
    ensures Behind(ss + [s]) == Behind(ss) + Backward(s)
  {
    assert (ss + [s])[..|ss|] == ss;
  }

  // ---- Parts of a tree

  lemma {:induction false} PartsOf(t: Tree, h: nat, i: nat)
    requires Shape(t, h) && i <= |t.entries|
    ensures h == 0 ==> Parts(t)[i] == []
    ensures 0 < h ==> |t.children| == |t.entries| + 1 && Parts(t)[i] == Flatten(t.children[i])
  {
  }

  lemma {:induction false} NoEnds(t: Tree)
    ensures LeftOf(t, 0) == [] && RightOf(t, |t.entries|) == []
  {
  }

  // ---- Going forward

  ghost function Opened(t: Tree, h: nat): Spot {
    if 0 < h then AtChild(t, h, 0) else AtEntry(t, h, 0)
  }

  lemma {:induction false} OpenForward(t: Tree, h: nat)
    requires Fine(Whole(t, h))
    ensures Fine(Opened(t, h)) && Forward(Opened(t, h)) == Flatten(t)
  {
    hide Flatten, LeftOf, RightOf, Parts;
    AroundChild(t, 0);
    PartsOf(t, h, 0);
    NoEnds(t);
  }

  lemma {:induction false} ChildForward(t: Tree, h: nat, i: nat)
    requires Fine(AtChild(t, h, i))
    ensures i < |t.children| && Fine(Whole(t.children[i], h - 1))
    ensures Forward(AtChild(t, h, i)) == Forward(Whole(t.children[i], h - 1)) + if i < |t.entries| then Forward(AtEntry(t, h, i)) else []
  {
    hide Flatten, LeftOf, RightOf, Parts;
    ChildShape(t, h, i);
    PartsOf(t, h, i);
    NoEnds(t);
  }

  /** Where to go after entry `i`; nowhere after the last entry of a leaf. */
  ghost function Next(t: Tree, h: nat, i: nat): seq<Spot> {
    if 0 < h then [AtChild(t, h, i + 1)] else if i + 1 < |t.entries| then [AtEntry(t, h, i + 1)] else []
  }

  lemma {:induction false} EntryThen(t: Tree, h: nat, i: nat)
    requires Fine(AtEntry(t, h, i))
    ensures AllFine(Next(t, h, i))
    ensures Forward(AtEntry(t, h, i)) == [t.entries[i]] + if Next(t, h, i) == [] then [] else Forward(Next(t, h, i)[0])
  {
    hide Flatten, LeftOf, RightOf, Parts;
    AroundEntry(t, i);
    PartsOf(t, h, i + 1);
    NoEnds(t);
  }

  lemma {:induction false} EntryForward(t: Tree, h: nat, i: nat, ss: seq<Spot>)
    requires Fine(AtEntry(t, h, i)) && AllFine(ss)
    ensures AllFine(ss + Next(t, h, i))
    ensures Forward(AtEntry(t, h, i)) + Ahead(ss) == [t.entries[i]] + Ahead(ss + Next(t, h, i))
  {
    hide Next, Forward, Ahead, Behind, Fine;
    EntryThen(t, h, i);
    AtMostOne(t, h, i);
    if Next(t, h, i) == [] {
      assert ss + Next(t, h, i) == ss;
    } else {
      Pushed(ss, Next(t, h, i)[0]);
    }
  }

  lemma {:induction false} AtMostOne(t: Tree, h: nat, i: nat)
    ensures Next(t, h, i) == [] || Next(t, h, i) == [Next(t, h, i)[0]]
    ensures Previous(t, h, i) == [] || Previous(t, h, i) == [Previous(t, h, i)[0]]
  {
  }

  // ---- Going backward

  ghost function OpenedBack(t: Tree, h: nat): Spot
    requires 0 < |t.entries|
  {
    if 0 < h then AtChild(t, h, |t.entries|) else AtEntry(t, h, |t.entries| - 1)
  }

  lemma {:induction false} OpenBackward(t: Tree, h: nat)
    requires Fine(Whole(t, h))
    ensures Fine(OpenedBack(t, h)) && Backward(OpenedBack(t, h)) == Flatten(t)
  {
    hide Flatten, LeftOf, RightOf, Parts;
    AroundChild(t, |t.entries|);
    PartsOf(t, h, |t.entries|);
    NoEnds(t);
  }

  lemma {:induction false} ChildBackward(t: Tree, h: nat, i: nat)
    requires Fine(AtChild(t, h, i))
    ensures i < |t.children| && Fine(Whole(t.children[i], h - 1))
    ensures Backward(AtChild(t, h, i)) == (if 0 < i then Backward(AtEntry(t, h, i - 1)) else []) + Backward(Whole(t.children[i], h - 1))
  {
    hide Flatten, LeftOf, RightOf, Parts;
    ChildShape(t, h, i);
    PartsOf(t, h, i);
    NoEnds(t);
  }

  ghost function Previous(t: Tree, h: nat, i: nat): seq<Spot> {
    if 0 < h then [AtChild(t, h, i)] else if 0 < i then [AtEntry(t, h, i - 1)] else []
  }

  lemma {:induction false} ThenEntry(t: Tree, h: nat, i: nat)
    requires Fine(AtEntry(t, h, i))
    ensures AllFine(Previous(t, h, i))
    ensures Backward(AtEntry(t, h, i)) == (if Previous(t, h, i) == [] then [] else Backward(Previous(t, h, i)[0])) + [t.entries[i]]
  {
    hide Flatten, LeftOf, RightOf, Parts;
    AroundEntry(t, i);
    PartsOf(t, h, i);
    NoEnds(t);
  }

  lemma {:induction false} EntryBackward(t: Tree, h: nat, i: nat, ss: seq<Spot>)
    requires Fine(AtEntry(t, h, i)) && AllFine(ss)
    ensures AllFine(ss + Previous(t, h, i))
    ensures Behind(ss) + Backward(AtEntry(t, h, i)) == Behind(ss + Previous(t, h, i)) + [t.entries[i]]
  {
    hide Previous, Backward, Ahead, Behind, Fine;
    ThenEntry(t, h, i);
    AtMostOne(t, h, i);
    if Previous(t, h, i) == [] {
      assert ss + Previous(t, h, i) == ss;
    } else {
      Pushed(ss, Previous(t, h, i)[0]);
    }
  }

  // ---- Finding where a range starts and ends

  /** The bound is in gap `i`: what is beyond it is in subtree `i`, or right of that. */
  lemma {:induction false} GapBeyond(t: Tree, i: nat, lo: Bound)
    requires Sorted(Flatten(t)) && !lo.Unbounded? && Gap(t.entries, i, lo.key)
    ensures Beyond(lo, Flatten(t)) == Beyond(lo, Parts(t)[i]) + RightOf(t, i)
  {
    hide Flatten, LeftOf, RightOf, Parts, Beyond;
    AroundChild(t, i);
    GapBounds(t, i, lo.key);
    BeyondSplit(lo, LeftOf(t, i), Parts(t)[i], RightOf(t, i));
  }

  lemma {:induction false} GapWithin(t: Tree, i: nat, hi: Bound)
    requires Sorted(Flatten(t)) && !hi.Unbounded? && Gap(t.entries, i, hi.key)
    ensures Within(hi, Flatten(t)) == LeftOf(t, i) + Within(hi, Parts(t)[i])
  {
    hide Flatten, LeftOf, RightOf, Parts, Within;
    AroundChild(t, i);
    GapBounds(t, i, hi.key);
    WithinSplit(hi, LeftOf(t, i), Parts(t)[i], RightOf(t, i));
  }

  /** The key of the bound is entry `i`. */
  lemma {:induction false} EntryBeyond(t: Tree, i: nat, lo: Bound)
    requires Sorted(Flatten(t)) && !lo.Unbounded? && i < |t.entries| && t.entries[i].key == lo.key
    ensures Beyond(lo, Flatten(t)) == if lo.Included? then RightOf(t, i) else Parts(t)[i + 1] + RightOf(t, i + 1)
  {
    hide Flatten, LeftOf, RightOf, Parts, Beyond;
    AroundEntry(t, i);
    EntryBounds(t, i);
    NothingBeyond(lo, lo);
    var f, l, m, r := Flatten(t), LeftOf(t, i) + Parts(t)[i], [t.entries[i]], Parts(t)[i + 1] + RightOf(t, i + 1);
    assert f == l + m + r;
    if lo.Included? {
      BeyondSplit(lo, l, [], RightOf(t, i));
      assert l + [] + RightOf(t, i) == f;
    } else {
      assert r != [] ==> f[|l| + 1] == r[0] && f[|l|] == m[0];
      BeyondSplit(lo, l + m, [], r);
      assert l + m + [] + r == f;
    }
  }

  lemma {:induction false} EntryWithin(t: Tree, i: nat, hi: Bound)
    requires Sorted(Flatten(t)) && !hi.Unbounded? && i < |t.entries| && t.entries[i].key == hi.key
    ensures Within(hi, Flatten(t)) == if hi.Included? then LeftOf(t, i + 1) else LeftOf(t, i) + Parts(t)[i]
  {
    hide Flatten, LeftOf, RightOf, Parts, Within;
    AroundEntry(t, i);
    EntryBounds(t, i);
    NothingBeyond(hi, hi);
    var f, l, m, r := Flatten(t), LeftOf(t, i) + Parts(t)[i], [t.entries[i]], Parts(t)[i + 1] + RightOf(t, i + 1);
    assert f == l + m + r;
    forall e | e in r
      ensures hi.key < e.key
    {
      var x :| 0 <= x < |r| && r[x] == e;
      assert f[|l| + 1 + x] == e && f[|l|] == m[0];
    }
    if hi.Included? {
      WithinSplit(hi, l + m, [], r);
      assert l + m + [] + r == f;
    } else {
      WithinSplit(hi, l, [], m + r);
      assert l + [] + (m + r) == f;
    }
  }
}
