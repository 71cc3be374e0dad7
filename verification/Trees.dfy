/** The B-tree as a value: addressed nodes, their entries and their subtrees.
    The stored pages are related to such a tree by `Stored`. */
module Trees {
  import opened Types
  import opened SortedSeq
  import opened Weaving

  /** Minimum degree, and the maximum number of entries in a node. */
  const B: nat := 6
  const CAPACITY: nat := 2 * B - 1

  datatype Tree = Tree(addr: Address, entries: seq<Entry>, children: seq<Tree>)

  // ---- Meaning

  /** The entries of the tree in key order. */
  ghost function Flatten(t: Tree): seq<Entry>
    decreases t, 1
  {
    Weave(t.entries, Parts(t))
  }

  ghost function Parts(t: Tree): (ps: seq<Part>)
    ensures |ps| == |t.entries| + 1
    decreases t, 0
  {
    if |t.children| == |t.entries| + 1 then Flats(t.children) else Blanks(|t.entries| + 1)
  }

  ghost function Flats(ts: seq<Tree>): (ps: seq<Part>)
    ensures |ps| == |ts|
    decreases ts, 0
  {
    seq(|ts|, i requires 0 <= i < |ts| => Flatten(ts[i]))
  }

  // ---- Shape

  /** A tree of height `h`: equal leaf depth, one more child than entries, and between B - 1 and
      CAPACITY entries in every node below the top one. */
  ghost predicate Shape(t: Tree, h: nat)
    decreases h, 0
  {
    && |t.entries| <= CAPACITY
    && if h == 0 then t.children == []
       else
         && |t.children| == |t.entries| + 1
         && forall i :: 0 <= i < |t.children| ==> Branch(t.children[i], h - 1)
  }

  /** A tree that may sit below another node. */
  ghost predicate Branch(t: Tree, h: nat)
    decreases h, 1
  {
    Shape(t, h) && B - 1 <= |t.entries|
  }

  lemma {:induction false} ChildShape(t: Tree, h: nat, i: nat)
    requires Shape(t, h) && 0 < h && i <= |t.entries|
    ensures i < |t.children| == |t.entries| + 1 && Branch(t.children[i], h - 1)
    ensures B - 1 <= |t.children[i].entries| <= CAPACITY
    ensures t.children[i].children == [] <==> h == 1
    ensures 1 < h ==> |t.children[i].children| == |t.children[i].entries| + 1
  {
    TopShape(t.children[i], h - 1);
  }

  lemma {:induction false} TopShape(t: Tree, h: nat)
    requires Shape(t, h)
    ensures |t.entries| <= CAPACITY && (t.children == [] <==> h == 0)
    ensures 0 < h ==> |t.children| == |t.entries| + 1
  {
  }

  // ---- Ownership of addresses

  ghost function Addrs(t: Tree): multiset<Address>
    decreases t, 1
  {
    multiset{t.addr} + AddrsOf(t.children)
  }

  ghost function AddrsOf(ts: seq<Tree>): multiset<Address>
    decreases ts, 0
  {
    if ts == [] then multiset{} else Addrs(ts[0]) + AddrsOf(ts[1..])
  }

  lemma {:induction false} AddrsConcat(ts: seq<Tree>, us: seq<Tree>)
    ensures AddrsOf(ts + us) == AddrsOf(ts) + AddrsOf(us)
  {
    if ts == [] {
      assert ts + us == us;
    } else {
      assert (ts + us)[1..] == ts[1..] + us;
      AddrsConcat(ts[1..], us);
    }
  }

  lemma {:induction false} AddrsOne(t: Tree)
    ensures AddrsOf([t]) == Addrs(t)
  {
    assert [t][1..] == [];
  }

  lemma {:induction false} AddrsAt(ts: seq<Tree>, i: nat)
    requires i < |ts|
    ensures AddrsOf(ts) == AddrsOf(ts[..i]) + Addrs(ts[i]) + AddrsOf(ts[i + 1..])
  {
    hide AddrsOf;
    assert ts == ts[..i] + ([ts[i]] + ts[i + 1..]);
    AddrsConcat(ts[..i], [ts[i]] + ts[i + 1..]);
    AddrsConcat([ts[i]], ts[i + 1..]);
    AddrsOne(ts[i]);
  }

  // ---- Local edits: the block of entries i..j with its subtrees is exchanged for another

  ghost predicate Editable(t: Tree, i: nat, j: nat, bs: seq<Entry>, ds: seq<Tree>) {
    i <= j <= |t.entries| && |t.children| == |t.entries| + 1 && |ds| == |bs| + 1
  }

  ghost function Edit(t: Tree, i: nat, j: nat, bs: seq<Entry>, ds: seq<Tree>): Tree
    requires Editable(t, i, j, bs, ds)
  {
    Tree(t.addr, t.entries[..i] + bs + t.entries[j..], t.children[..i] + ds + t.children[j + 1..])
  }

  /** What lies left of subtree `i` and right of subtree `i`. */
  ghost function LeftOf(t: Tree, i: nat): seq<Entry>
    requires i <= |t.entries|
  {
    Before(t.entries[..i], Parts(t)[..i])
  }

  ghost function RightOf(t: Tree, i: nat): seq<Entry>
    requires i <= |t.entries|
  {
    After(t.entries[i..], Parts(t)[i + 1..])
  }

  lemma {:induction false} FlatsConcat(ts: seq<Tree>, us: seq<Tree>)
    ensures Flats(ts + us) == Flats(ts) + Flats(us)
  {
  }

  lemma {:induction false} FlatsSlice(ts: seq<Tree>, i: nat, j: nat)
    requires i <= j <= |ts|
    ensures Flats(ts[i..j]) == Flats(ts)[i..j]
  {
  }

  lemma {:induction false} EditFlatten(t: Tree, i: nat, j: nat, bs: seq<Entry>, ds: seq<Tree>)
    requires Editable(t, i, j, bs, ds)
    ensures Flatten(Edit(t, i, j, bs, ds)) == LeftOf(t, i) + Weave(bs, Flats(ds)) + RightOf(t, j)
  {
    var t' := Edit(t, i, j, bs, ds);
    var ps := Parts(t);
    FlatsConcat(t.children[..i] + ds, t.children[j + 1..]);
    FlatsConcat(t.children[..i], ds);
    FlatsSlice(t.children, 0, i);
    FlatsSlice(t.children, j + 1, |t.children|);
    Splice(t.entries[..i], bs, t.entries[j..], ps[..i], Flats(ds), ps[j + 1..]);
    assert Parts(t') == ps[..i] + Flats(ds) + ps[j + 1..];
  }

  /** The tree seen around one subtree, and around one entry. */
  lemma {:induction false} AroundChild(t: Tree, i: nat)
    requires i <= |t.entries|
    ensures Flatten(t) == LeftOf(t, i) + Parts(t)[i] + RightOf(t, i)
  {
    var es, ps := t.entries, Parts(t);
    assert es == es[..i] + [] + es[i..] && ps == ps[..i] + [ps[i]] + ps[i + 1..];
    Splice(es[..i], [], es[i..], ps[..i], [ps[i]], ps[i + 1..]);
  }

  lemma {:induction false} AroundEntry(t: Tree, i: nat)
    requires i < |t.entries|
    ensures RightOf(t, i) == [t.entries[i]] + Parts(t)[i + 1] + RightOf(t, i + 1)
    ensures LeftOf(t, i + 1) == LeftOf(t, i) + Parts(t)[i] + [t.entries[i]]
    ensures Flatten(t) == LeftOf(t, i) + Parts(t)[i] + [t.entries[i]] + Parts(t)[i + 1] + RightOf(t, i + 1)
  {
    var es, ps := t.entries, Parts(t);
    assert es[i..][1..] == es[i + 1..] && ps[i + 1..][1..] == ps[i + 2..];
    AroundChild(t, i);
    BeforeSnoc(es[..i], es[i], ps[..i], ps[i]);
    assert es[..i + 1] == es[..i] + [es[i]] && ps[..i + 1] == ps[..i] + [ps[i]];
  }

  lemma {:induction false} BeforeSnoc(es: seq<Entry>, e: Entry, ps: seq<Part>, p: Part)
    requires |ps| == |es|
    ensures Before(es + [e], ps + [p]) == Before(es, ps) + p + [e]
  {
    if es == [] {
      assert es + [e] == [e] && ps + [p] == [p] && [e][1..] == [] && [p][1..] == [];
    } else {
      assert (es + [e])[1..] == es[1..] + [e] && (ps + [p])[1..] == ps[1..] + [p];
      BeforeSnoc(es[1..], e, ps[1..], p);
    }
  }

  /** Exchanging a block for one with the same in-order contents leaves the meaning alone. */
  lemma {:induction false} EditSame(t: Tree, i: nat, j: nat, bs: seq<Entry>, ds: seq<Tree>)
    requires Editable(t, i, j, bs, ds)
    requires Weave(bs, Flats(ds)) == Weave(t.entries[i..j], Flats(t.children[i..j + 1]))
    ensures Flatten(Edit(t, i, j, bs, ds)) == Flatten(t)
  {
    hide Flatten, Flats, Weave, LeftOf, RightOf;
    EditFlatten(t, i, j, bs, ds);
    EditFlatten(t, i, j, t.entries[i..j], t.children[i..j + 1]);
    assert t == Edit(t, i, j, t.entries[i..j], t.children[i..j + 1]);
  }

  lemma {:induction false} EditShape(t: Tree, h: nat, i: nat, j: nat, bs: seq<Entry>, ds: seq<Tree>)
    requires Editable(t, i, j, bs, ds) && Shape(t, h) && 0 < h
    requires forall k :: 0 <= k < |ds| ==> Branch(ds[k], h - 1)
    requires |t.entries| + |bs| - (j - i) <= CAPACITY
    ensures Shape(Edit(t, i, j, bs, ds), h)
  {
  }

  lemma {:induction false} EditAddrs(t: Tree, i: nat, j: nat, bs: seq<Entry>, ds: seq<Tree>)
    requires Editable(t, i, j, bs, ds)
    ensures AddrsOf(t.children) == AddrsOf(t.children[..i]) + AddrsOf(t.children[i..j + 1]) + AddrsOf(t.children[j + 1..])
    ensures AddrsOf(Edit(t, i, j, bs, ds).children) == AddrsOf(t.children[..i]) + AddrsOf(ds) + AddrsOf(t.children[j + 1..])
  {
    hide AddrsOf;
    var cs := t.children;
    AddrsThree(cs[..i], ds, cs[j + 1..]);
    AddrsThree(cs[..i], cs[i..j + 1], cs[j + 1..]);
    assert cs == cs[..i] + cs[i..j + 1] + cs[j + 1..];
  }

  lemma {:induction false} AddrsThree(ts: seq<Tree>, us: seq<Tree>, vs: seq<Tree>)
    ensures AddrsOf(ts + us + vs) == AddrsOf(ts) + AddrsOf(us) + AddrsOf(vs)
  {
    hide AddrsOf;
    AddrsConcat(ts + us, vs);
    AddrsConcat(ts, us);
  }

  // ---- Order

  lemma {:induction false} BeforeBelow(es: seq<Entry>, ps: seq<Part>, k: Key)
    requires |ps| == |es| && AllBelow(Before(es, ps), k)
    ensures AllBelow(es, k)
  {
    if es != [] {
      var b := Before(es, ps);
      assert b[|ps[0]|] == es[0];
      assert Before(es[1..], ps[1..]) == b[|ps[0]| + 1..];
      BeforeBelow(es[1..], ps[1..], k);
    }
  }

  /** In a sorted tree the entries of a node are sorted. */
  lemma {:induction false} EntriesSorted(t: Tree)
    requires Sorted(Flatten(t))
    ensures Sorted(t.entries)
  {
    forall i, j | 0 <= i < j < |t.entries|
      ensures t.entries[i].key < t.entries[j].key
    {
      AroundEntry(t, j);
      var l := LeftOf(t, j);
      assert Flatten(t)[|l + Parts(t)[j]|] == t.entries[j];
      assert forall x :: 0 <= x < |l| ==> Flatten(t)[x] == l[x];
      BeforeBelow(t.entries[..j], Parts(t)[..j], t.entries[j].key);
      assert t.entries[..j][i] == t.entries[i];
    }
  }

  /** `i` is the gap of `k` among the entries of the node. */
  ghost predicate Gap(es: seq<Entry>, i: nat, k: Key) {
    i <= |es| && (0 < i ==> es[i - 1].key < k) && (i < |es| ==> k < es[i].key)
  }

  /** A key in the gap `i` is above all that lies left of subtree `i` and below all right of it. */
  lemma {:induction false} GapBounds(t: Tree, i: nat, k: Key)
    requires Sorted(Flatten(t)) && Gap(t.entries, i, k)
    ensures AllBelow(LeftOf(t, i), k) && AllAbove(k, RightOf(t, i))
  {
    if 0 < i {
      GapBelow(t, i);
    }
    if i < |t.entries| {
      GapAbove(t, i);
    }
  }

  lemma {:induction false} GapBelow(t: Tree, i: nat)
    requires Sorted(Flatten(t)) && 0 < i <= |t.entries|
    ensures forall x :: 0 <= x < |LeftOf(t, i)| ==> LeftOf(t, i)[x].key <= t.entries[i - 1].key
  {
    var f, l := Flatten(t), LeftOf(t, i);
    AroundChild(t, i);
    assert forall x :: 0 <= x < |l| ==> f[x] == l[x];
    AroundEntry(t, i - 1);
    assert l[|l| - 1] == t.entries[i - 1];
  }

  lemma {:induction false} GapAbove(t: Tree, i: nat)
    requires Sorted(Flatten(t)) && i < |t.entries|
    ensures forall x :: 0 <= x < |RightOf(t, i)| ==> t.entries[i].key <= RightOf(t, i)[x].key
  {
    var f, r := Flatten(t), RightOf(t, i);
    AroundChild(t, i);
    assert forall x :: 0 <= x < |r| ==> f[|f| - |r| + x] == r[x];
    AroundEntry(t, i);
    assert r[0] == t.entries[i];
  }

  /** Entry `i` of a sorted tree is above all that precedes it. */
  lemma {:induction false} EntryBounds(t: Tree, i: nat)
    requires Sorted(Flatten(t)) && i < |t.entries|
    ensures AllBelow(LeftOf(t, i) + Parts(t)[i], t.entries[i].key)
  {
    AroundEntry(t, i);
    var f, l := Flatten(t), LeftOf(t, i) + Parts(t)[i];
    assert f[|l|] == t.entries[i];
    assert forall x :: 0 <= x < |l| ==> f[x] == l[x];
  }

  lemma {:induction false} WeaveBelow(es: seq<Entry>, ps: seq<Part>, k: Key)
    requires |ps| == |es| + 1 && AllBelow(Weave(es, ps), k)
    ensures AllBelow(es, k)
  {
    if es != [] {
      var w := Weave(es, ps);
      assert w[|ps[0]|] == es[0];
      assert Weave(es[1..], ps[1..]) == w[|ps[0]| + 1..];
      WeaveBelow(es[1..], ps[1..], k);
    }
  }

  lemma {:induction false} WeaveAbove(es: seq<Entry>, ps: seq<Part>, k: Key)
    requires |ps| == |es| + 1 && AllAbove(k, Weave(es, ps))
    ensures AllAbove(k, es)
  {
    if es != [] {
      var w := Weave(es, ps);
      assert w[|ps[0]|] == es[0];
      assert Weave(es[1..], ps[1..]) == w[|ps[0]| + 1..];
      WeaveAbove(es[1..], ps[1..], k);
    }
  }

  lemma {:induction false} TopWithin(t: Tree, k: Key)
    ensures AllBelow(Flatten(t), k) ==> AllBelow(t.entries, k)
    ensures AllAbove(k, Flatten(t)) ==> AllAbove(k, t.entries)
  {
    if AllBelow(Flatten(t), k) {
      WeaveBelow(t.entries, Parts(t), k);
    }
    if AllAbove(k, Flatten(t)) {
      WeaveAbove(t.entries, Parts(t), k);
    }
  }

  /** The entries of neighbouring children lie on either side of the entry between them. */
  lemma {:induction false} Neighbours(t: Tree, i: nat)
    requires Sorted(Flatten(t)) && i < |t.entries| && |t.children| == |t.entries| + 1
    ensures AllBelow(t.children[i].entries, t.entries[i].key)
    ensures AllAbove(t.entries[i].key, t.children[i + 1].entries)
  {
    var f, l, p, r := Flatten(t), LeftOf(t, i), Parts(t)[i], Parts(t)[i + 1];
    var e := t.entries[i];
    AroundEntry(t, i);
    assert f[|l| + |p|] == e;
    assert forall x :: 0 <= x < |p| ==> f[|l| + x] == p[x];
    assert forall x :: 0 <= x < |r| ==> f[|l| + |p| + 1 + x] == r[x];
    assert p == Flatten(t.children[i]) && r == Flatten(t.children[i + 1]);
    TopWithin(t.children[i], e.key);
    TopWithin(t.children[i + 1], e.key);
  }

  /** A subtree of a sorted tree is sorted. */
  lemma {:induction false} ChildSorted(t: Tree, i: nat)
    requires Sorted(Flatten(t)) && i <= |t.entries|
    ensures Sorted(Parts(t)[i])
    ensures |t.children| == |t.entries| + 1 ==> Sorted(Flatten(t.children[i])) && |Flatten(t.children[i])| <= |Flatten(t)|
  {
    AroundChild(t, i);
    var f, l, p := Flatten(t), LeftOf(t, i), Parts(t)[i];
    assert forall x :: 0 <= x < |p| ==> f[|l| + x] == p[x];
  }

  lemma {:induction false} LeafFlatten(t: Tree)
    requires t.children == []
    ensures Flatten(t) == t.entries
  {
    WeaveBlanks(t.entries);
  }

  lemma {:induction false} LoneChild(t: Tree)
    requires t.entries == [] && |t.children| == 1
    ensures Flatten(t) == Flatten(t.children[0])
  {
    assert Parts(t) == Flats(t.children) && Flats(t.children)[0] == Flatten(t.children[0]);
  }

  lemma {:induction false} NonEmpty(t: Tree, h: nat)
    requires Shape(t, h) && 0 < |t.entries|
    ensures 0 < |Flatten(t)|
  {
    AroundEntry(t, 0);
  }

  // ---- Height

  ghost function Pow6(h: nat): nat {
    if h == 0 then 1 else 6 * Pow6(h - 1)
  }

  lemma AtLeastTimes(a: nat, b: nat, p: nat)
    requires b <= a
    ensures b * p <= a * p
  {
    assert a * p - b * p == (a - b) * p;
  }

  lemma {:induction false} BranchSize(t: Tree, h: nat)
    requires Branch(t, h)
    ensures |Flatten(t)| >= Pow6(h + 1) - 1
    decreases h, 0, 0
  {
    if h == 0 {
      LeafFlatten(t);
      assert Pow6(1) == 6 * Pow6(0);
    } else {
      WovenSize(t.entries, t.children, h - 1);
      AtLeastTimes(|t.children|, B, Pow6(h));
      assert Pow6(h + 1) == B * Pow6(h);
    }
  }

  lemma {:induction false} WovenSize(es: seq<Entry>, cs: seq<Tree>, h: nat)
    requires |cs| == |es| + 1
    requires forall i :: 0 <= i < |cs| ==> Branch(cs[i], h)
    ensures |Weave(es, Flats(cs))| >= |cs| * Pow6(h + 1) - 1
    decreases h, 1, |es|
  {
    BranchSize(cs[0], h);
    if es != [] {
      assert Flats(cs)[1..] == Flats(cs[1..]);
      WovenSize(es[1..], cs[1..], h);
    }
  }

  /** A tree of height `h` holds at least 2 * 6^h - 1 entries: lookup depth is logarithmic. */
  lemma {:induction false} HeightBound(t: Tree, h: nat)
    requires Shape(t, h) && 0 < |t.entries|
    ensures |Flatten(t)| >= 2 * Pow6(h) - 1
  {
    if h == 0 {
      LeafFlatten(t);
    } else {
      WovenSize(t.entries, t.children, h - 1);
      AtLeastTimes(|t.children|, 2, Pow6(h));
    }
  }

  /** A tree has no more than CAPACITY entries for each of its nodes. */
  lemma {:induction false} EntriesBound(t: Tree, h: nat)
    requires Shape(t, h)
    ensures |Flatten(t)| <= CAPACITY * |Addrs(t)|
    decreases h, 0, 0
  {
    if h == 0 {
      LeafFlatten(t);
    } else {
      WovenBound(t.entries, t.children, h - 1);
    }
  }

  lemma {:induction false} WovenBound(es: seq<Entry>, cs: seq<Tree>, h: nat)
    requires |cs| == |es| + 1
    requires forall i :: 0 <= i < |cs| ==> Shape(cs[i], h)
    ensures |Weave(es, Flats(cs))| <= |es| + CAPACITY * |AddrsOf(cs)|
    decreases h, 1, |es|
  {
    EntriesBound(cs[0], h);
    if es == [] {
      AddrsOne(cs[0]);
      assert cs == [cs[0]];
    } else {
      assert Flats(cs)[1..] == Flats(cs[1..]);
      WovenBound(es[1..], cs[1..], h);
    }
  }
}
