/** The restructuring steps of insertion and removal, on trees: splitting a full child, merging two
    children, and moving an entry between siblings. Each leaves the in-order contents alone. */
module Restructure {
  import opened Types
  import opened SortedSeq
  import opened Weaving
  import opened Trees

  /** Two nodes and the entry between them as one node at address `a`. */
  ghost function Joined(l: Tree, m: Entry, r: Tree, a: Address): Tree {
    Tree(a, l.entries + [m] + r.entries, l.children + r.children)
  }

  lemma {:induction false} JoinedMeaning(l: Tree, m: Entry, r: Tree, a: Address, h: nat)
    requires Shape(l, h) && Shape(r, h)
    ensures Flatten(Joined(l, m, r, a)) == Flatten(l) + [m] + Flatten(r)
    ensures |l.entries| + 1 + |r.entries| <= CAPACITY ==> Shape(Joined(l, m, r, a), h)
    ensures Addrs(Joined(l, m, r, a)) == multiset{a} + AddrsOf(l.children) + AddrsOf(r.children)
  {
    var j := Joined(l, m, r, a);
    Join(l.entries, m, r.entries, Parts(l), Parts(r));
    AddrsConcat(l.children, r.children);
    if h == 0 {
      assert Parts(j) == Parts(l) + Parts(r);
    } else {
      FlatsConcat(l.children, r.children);
    }
  }

  ghost function Cut(ts: seq<Tree>, lo: nat, hi: nat): seq<Tree> {
    if lo <= hi <= |ts| then ts[lo..hi] else []
  }

  // ---- Splitting a full node around its median

  ghost function LowHalf(c: Tree): Tree
    requires |c.entries| == CAPACITY
  {
    Tree(c.addr, c.entries[..B - 1], Cut(c.children, 0, B))
  }

  ghost function HighHalf(c: Tree, a: Address): Tree
    requires |c.entries| == CAPACITY
  {
    Tree(a, c.entries[B..], Cut(c.children, B, |c.children|))
  }

  lemma {:induction false} SplitMeaning(c: Tree, a: Address, h: nat)
    requires Shape(c, h) && |c.entries| == CAPACITY
    ensures Branch(LowHalf(c), h) && Branch(HighHalf(c, a), h)
    ensures Flatten(c) == Flatten(LowHalf(c)) + [c.entries[B - 1]] + Flatten(HighHalf(c, a))
    ensures Addrs(LowHalf(c)) + Addrs(HighHalf(c, a)) == Addrs(c) + multiset{a}
  {
    var l, r, m := LowHalf(c), HighHalf(c, a), c.entries[B - 1];
    assert c.entries == l.entries + [m] + r.entries;
    assert c.children == l.children + r.children;
    assert c == Joined(l, m, r, c.addr);
    JoinedMeaning(l, m, r, c.addr, h);
  }

  /** The parent after splitting its full child `i`, the upper half going to address `a`. */
  ghost function SplitChild(t: Tree, i: nat, a: Address): Tree
    requires i <= |t.entries| && |t.children| == |t.entries| + 1 && |t.children[i].entries| == CAPACITY
  {
    var c := t.children[i];
    Edit(t, i, i, [c.entries[B - 1]], [LowHalf(c), HighHalf(c, a)])
  }

  lemma {:induction false} SplitChildMeaning(t: Tree, i: nat, a: Address, h: nat)
    requires Shape(t, h) && 0 < h && i <= |t.entries| < CAPACITY
    requires |t.children[i].entries| == CAPACITY
    ensures Flatten(SplitChild(t, i, a)) == Flatten(t)
    ensures Shape(SplitChild(t, i, a), h)
    ensures Addrs(SplitChild(t, i, a)) == Addrs(t) + multiset{a}
  {
    var c := t.children[i];
    var bs, ds := [c.entries[B - 1]], [LowHalf(c), HighHalf(c, a)];
    SplitMeaning(c, a, h - 1);
    TwoParts(ds[0], bs[0], ds[1]);
    OnePart(t, i);
    EditSame(t, i, i, bs, ds);
    EditShape(t, h, i, i, bs, ds);
    EditAddrs(t, i, i, bs, ds);
    AddrsPair(ds[0], ds[1]);
    AddrsOne(c);
    assert t.children[i..i + 1] == [c];
  }

  lemma {:induction false} OnePart(t: Tree, i: nat)
    requires i <= |t.entries| && |t.children| == |t.entries| + 1
    ensures Weave(t.entries[i..i], Flats(t.children[i..i + 1])) == Flatten(t.children[i])
  {
  }

  lemma {:induction false} TwoParts(l: Tree, m: Entry, r: Tree)
    ensures Weave([m], Flats([l, r])) == Flatten(l) + [m] + Flatten(r)
  {
    assert Flats([l, r]) == [Flatten(l), Flatten(r)];
    assert [m][1..] == [] && [Flatten(l), Flatten(r)][1..] == [Flatten(r)];
  }

  lemma {:induction false} AddrsPair(l: Tree, r: Tree)
    ensures AddrsOf([l, r]) == Addrs(l) + Addrs(r)
  {
    assert [l, r][1..] == [r];
    AddrsOne(r);
  }

  // ---- Merging children i and i + 1 into one node at address `a`

  ghost function MergeChildren(t: Tree, i: nat, a: Address): Tree
    requires i < |t.entries| && |t.children| == |t.entries| + 1
  {
    Edit(t, i, i + 1, [], [Joined(t.children[i], t.entries[i], t.children[i + 1], a)])
  }

  lemma {:induction false} MergeChildrenMeaning(t: Tree, i: nat, a: Address, h: nat)
    requires Shape(t, h) && 0 < h && i < |t.entries|
    requires |t.children[i].entries| == |t.children[i + 1].entries| == B - 1
    ensures Flatten(MergeChildren(t, i, a)) == Flatten(t)
    ensures Shape(MergeChildren(t, i, a), h)
    ensures Branch(MergeChildren(t, i, a).children[i], h - 1) && |MergeChildren(t, i, a).children[i].entries| == CAPACITY
    ensures MergeChildren(t, i, a).addr == t.addr && |MergeChildren(t, i, a).entries| == |t.entries| - 1
  {
    var l, r, m := t.children[i], t.children[i + 1], t.entries[i];
    var ds := [Joined(l, m, r, a)];
    JoinedMeaning(l, m, r, a, h - 1);
    assert t.entries[i..i + 1] == [m] && t.children[i..i + 2] == [l, r];
    TwoParts(l, m, r);
    assert Flats(ds) == [Flatten(ds[0])];
    EditSame(t, i, i + 1, [], ds);
    EditShape(t, h, i, i + 1, [], ds);
  }

  lemma {:induction false} MergeChildrenAddrs(t: Tree, i: nat, a: Address, h: nat)
    requires Shape(t, h) && 0 < h && i < |t.entries|
    ensures a == t.children[i].addr ==> Addrs(t) == Addrs(MergeChildren(t, i, a)) + multiset{t.children[i + 1].addr}
    ensures a == t.children[i + 1].addr ==> Addrs(t) == Addrs(MergeChildren(t, i, a)) + multiset{t.children[i].addr}
  {
    var l, r, m := t.children[i], t.children[i + 1], t.entries[i];
    var ds := [Joined(l, m, r, a)];
    hide AddrsOf;
    assert t.children[i..i + 2] == [l, r];
    EditAddrs(t, i, i + 1, [], ds);
    AddrsPair(l, r);
    AddrsOne(ds[0]);
    AddrsConcat(l.children, r.children);
  }

  // ---- Moving an entry from a sibling through the parent

  /** What a node of height `h` gives away with its last, or first, entry: a subtree or nothing. */
  ghost function Stub(ts: seq<Tree>): Tree {
    Tree(NULL, [], ts)
  }

  ghost function WithoutLast(l: Tree): Tree
    requires 0 < |l.entries|
  {
    Tree(l.addr, l.entries[..|l.entries| - 1], Cut(l.children, 0, |l.entries|))
  }

  ghost function WithoutFirst(r: Tree): Tree
    requires 0 < |r.entries|
  {
    Tree(r.addr, r.entries[1..], Cut(r.children, 1, |r.children|))
  }

  ghost function FromLeft(l: Tree, m: Entry, c: Tree): Tree
    requires 0 < |l.entries|
  {
    Tree(c.addr, [m] + c.entries, Cut(l.children, |l.entries|, |l.children|) + c.children)
  }

  ghost function FromRight(c: Tree, m: Entry, r: Tree): Tree
    requires 0 < |r.entries|
  {
    Tree(c.addr, c.entries + [m], c.children + Cut(r.children, 0, 1))
  }

  /** Children i and i + 1 after the last entry of child i moves up and entry i moves down. */
  ghost function RotateFromLeft(t: Tree, i: nat): Tree
    requires i < |t.entries| && |t.children| == |t.entries| + 1 && 0 < |t.children[i].entries|
  {
    var l, c := t.children[i], t.children[i + 1];
    Edit(t, i, i + 1, [l.entries[|l.entries| - 1]], [WithoutLast(l), FromLeft(l, t.entries[i], c)])
  }

  /** Children i and i + 1 after the first entry of child i + 1 moves up and entry i moves down. */
  ghost function RotateFromRight(t: Tree, i: nat): Tree
    requires i < |t.entries| && |t.children| == |t.entries| + 1 && 0 < |t.children[i + 1].entries|
  {
    var c, r := t.children[i], t.children[i + 1];
    Edit(t, i, i + 1, [r.entries[0]], [FromRight(c, t.entries[i], r), WithoutFirst(r)])
  }

  lemma {:induction false} FromLeftMeaning(l: Tree, m: Entry, c: Tree, h: nat)
    requires Shape(l, h) && Shape(c, h) && 0 < |l.entries| && |c.entries| < CAPACITY
    ensures Shape(WithoutLast(l), h) && Shape(FromLeft(l, m, c), h)
    ensures Flatten(WithoutLast(l)) + [l.entries[|l.entries| - 1]] + Flatten(FromLeft(l, m, c)) == Flatten(l) + [m] + Flatten(c)
  {
    hide Flatten, AddrsOf;
    var n := |l.entries|;
    var l', x, s := WithoutLast(l), l.entries[n - 1], Stub(Cut(l.children, n, |l.children|));
    assert l.entries == l'.entries + [x] + s.entries && l.children == l'.children + s.children;
    assert l == Joined(l', x, s, l.addr);
    JoinedMeaning(l', x, s, l.addr, h);
    assert FromLeft(l, m, c) == Joined(s, m, c, c.addr);
    JoinedMeaning(s, m, c, c.addr, h);
  }

  lemma {:induction false} FromRightMeaning(c: Tree, m: Entry, r: Tree, h: nat)
    requires Shape(c, h) && Shape(r, h) && 0 < |r.entries| && |c.entries| < CAPACITY
    ensures Shape(WithoutFirst(r), h) && Shape(FromRight(c, m, r), h)
    ensures Flatten(FromRight(c, m, r)) + [r.entries[0]] + Flatten(WithoutFirst(r)) == Flatten(c) + [m] + Flatten(r)
  {
    hide Flatten, AddrsOf;
    var r', x, s := WithoutFirst(r), r.entries[0], Stub(Cut(r.children, 0, 1));
    assert r.entries == s.entries + [x] + r'.entries && r.children == s.children + r'.children;
    assert r == Joined(s, x, r', r.addr);
    JoinedMeaning(s, x, r', r.addr, h);
    assert FromRight(c, m, r) == Joined(c, m, s, c.addr);
    JoinedMeaning(c, m, s, c.addr, h);
  }

  lemma {:induction false} FromLeftAddrs(l: Tree, m: Entry, r: Tree, h: nat)
    requires Shape(l, h) && 0 < |l.entries|
    ensures Addrs(WithoutLast(l)) + Addrs(FromLeft(l, m, r)) == Addrs(l) + Addrs(r)
  {
    hide AddrsOf;
    var kept, moved := WithoutLast(l).children, Cut(l.children, |l.entries|, |l.children|);
    assert l.children == kept + moved;
    AddrsConcat(kept, moved);
    AddrsConcat(moved, r.children);
  }

  lemma {:induction false} FromRightAddrs(l: Tree, m: Entry, r: Tree, h: nat)
    requires Shape(r, h) && 0 < |r.entries|
    ensures Addrs(FromRight(l, m, r)) + Addrs(WithoutFirst(r)) == Addrs(l) + Addrs(r)
  {
    hide AddrsOf;
    var moved, kept := Cut(r.children, 0, 1), WithoutFirst(r).children;
    assert r.children == moved + kept;
    AddrsConcat(moved, kept);
    AddrsConcat(l.children, moved);
  }

  /** An exchange of two neighbouring children and the entry between them. */
  lemma {:induction false} PairMeaning(t: Tree, i: nat, h: nat, l: Tree, m: Entry, r: Tree)
    requires Shape(t, h) && 0 < h && i < |t.entries|
    requires Branch(l, h - 1) && Branch(r, h - 1)
    requires Flatten(l) + [m] + Flatten(r) == Flatten(t.children[i]) + [t.entries[i]] + Flatten(t.children[i + 1])
    ensures Flatten(Edit(t, i, i + 1, [m], [l, r])) == Flatten(t)
    ensures Shape(Edit(t, i, i + 1, [m], [l, r]), h)
  {
    TwoParts(t.children[i], t.entries[i], t.children[i + 1]);
    TwoParts(l, m, r);
    assert t.entries[i..i + 1] == [t.entries[i]] && t.children[i..i + 2] == [t.children[i], t.children[i + 1]];
    EditSame(t, i, i + 1, [m], [l, r]);
    EditShape(t, h, i, i + 1, [m], [l, r]);
  }

  lemma {:induction false} PairAddrs(t: Tree, i: nat, l: Tree, m: Entry, r: Tree)
    requires i < |t.entries| && |t.children| == |t.entries| + 1
    requires Addrs(l) + Addrs(r) == Addrs(t.children[i]) + Addrs(t.children[i + 1])
    ensures Addrs(Edit(t, i, i + 1, [m], [l, r])) == Addrs(t)
  {
    hide AddrsOf;
    assert t.children[i..i + 2] == [t.children[i], t.children[i + 1]];
    EditAddrs(t, i, i + 1, [m], [l, r]);
    AddrsPair(t.children[i], t.children[i + 1]);
    AddrsPair(l, r);
  }

  lemma {:induction false} RotateFromLeftMeaning(t: Tree, i: nat, h: nat)
    requires Shape(t, h) && 0 < h && i < |t.entries|
    requires B <= |t.children[i].entries| && |t.children[i + 1].entries| < CAPACITY
    ensures Flatten(RotateFromLeft(t, i)) == Flatten(t)
    ensures Shape(RotateFromLeft(t, i), h)
    ensures Addrs(RotateFromLeft(t, i)) == Addrs(t)
  {
    var l, c := t.children[i], t.children[i + 1];
    FromLeftMeaning(l, t.entries[i], c, h - 1);
    FromLeftAddrs(l, t.entries[i], c, h - 1);
    PairMeaning(t, i, h, WithoutLast(l), l.entries[|l.entries| - 1], FromLeft(l, t.entries[i], c));
    PairAddrs(t, i, WithoutLast(l), l.entries[|l.entries| - 1], FromLeft(l, t.entries[i], c));
  }

  lemma {:induction false} RotateFromRightMeaning(t: Tree, i: nat, h: nat)
    requires Shape(t, h) && 0 < h && i < |t.entries|
    requires |t.children[i].entries| < CAPACITY && B <= |t.children[i + 1].entries|
    ensures Flatten(RotateFromRight(t, i)) == Flatten(t)
    ensures Shape(RotateFromRight(t, i), h)
    ensures Addrs(RotateFromRight(t, i)) == Addrs(t)
  {
    var c, r := t.children[i], t.children[i + 1];
    FromRightMeaning(c, t.entries[i], r, h - 1);
    FromRightAddrs(c, t.entries[i], r, h - 1);
    PairMeaning(t, i, h, FromRight(c, t.entries[i], r), r.entries[0], WithoutFirst(r));
    PairAddrs(t, i, FromRight(c, t.entries[i], r), r.entries[0], WithoutFirst(r));
  }
}
