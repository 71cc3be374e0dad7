/** What an operation on one node does to the meaning of the whole tree. */
module TreeOps {
  import opened Types
  import opened SortedSeq
  import opened Weaving
  import opened Trees
  import opened Restructure

  /** The tree with the entry at the top changed. */
  ghost function WithEntry(t: Tree, i: nat, e: Entry): Tree
    requires i < |t.entries|
  {
    t.(entries := t.entries[i := e])
  }

  lemma {:induction false} WithEntryShape(t: Tree, i: nat, e: Entry, h: nat)
    requires i < |t.entries| && Shape(t, h)
    ensures Shape(WithEntry(t, i, e), h)
  {
  }

  lemma {:induction false} WithEntryFlatten(t: Tree, i: nat, e: Entry)
    requires i < |t.entries|
    ensures Flatten(WithEntry(t, i, e)) == LeftOf(t, i) + Parts(t)[i] + [e] + Parts(t)[i + 1] + RightOf(t, i + 1)
  {
    var t' := WithEntry(t, i, e);
    AroundEntry(t', i);
    assert t'.entries[..i] == t.entries[..i] && t'.entries[i + 1..] == t.entries[i + 1..];
    assert Parts(t') == Parts(t);
  }

  /** A key found at the top of the tree. */
  lemma {:induction false} FoundAtTop(t: Tree, i: nat, v: Value)
    requires Sorted(Flatten(t)) && i < |t.entries|
    ensures Find(Flatten(t), t.entries[i].key) == Some(t.entries[i].value)
    ensures Flatten(WithEntry(t, i, Entry(t.entries[i].key, v))) == Put(Flatten(t), t.entries[i].key, v)
    ensures Drop(Flatten(t), t.entries[i].key) == LeftOf(t, i) + Parts(t)[i] + (Parts(t)[i + 1] + RightOf(t, i + 1))
  {
    var l, e, r := LeftOf(t, i) + Parts(t)[i], t.entries[i], Parts(t)[i + 1] + RightOf(t, i + 1);
    AroundEntry(t, i);
    EntryBounds(t, i);
    assert Flatten(t) == l + [e] + r;
    AtKey(l, e, r, v);
    WithEntryFlatten(t, i, Entry(e.key, v));
  }

  // ---- Leaves

  lemma {:induction false} GapInSorted(es: seq<Entry>, i: nat, k: Key)
    requires Sorted(es) && Gap(es, i, k)
    ensures AllBelow(es[..i], k) && AllAbove(k, es[i..])
  {
  }

  lemma {:induction false} MissingAt(es: seq<Entry>, i: nat, k: Key, v: Value)
    requires Sorted(es) && Gap(es, i, k)
    ensures Find(es, k) == None && Drop(es, k) == es
    ensures Put(es, k, v) == es[..i] + [Entry(k, v)] + es[i..]
  {
    GapInSorted(es, i, k);
    AtGap(es[..i], es[i..], k, v);
    assert es == es[..i] + es[i..];
  }

  lemma {:induction false} LeafMissing(t: Tree, i: nat, k: Key, v: Value)
    requires t.children == [] && Sorted(t.entries) && Gap(t.entries, i, k)
    ensures Find(Flatten(t), k) == None && Drop(Flatten(t), k) == Flatten(t)
    ensures Put(Flatten(t), k, v) == t.entries[..i] + [Entry(k, v)] + t.entries[i..]
  {
    LeafFlatten(t);
    MissingAt(t.entries, i, k, v);
  }

  lemma {:induction false} LeafFound(t: Tree, i: nat)
    requires t.children == [] && Sorted(t.entries) && i < |t.entries|
    ensures Find(Flatten(t), t.entries[i].key) == Some(t.entries[i].value)
    ensures Drop(Flatten(t), t.entries[i].key) == t.entries[..i] + t.entries[i + 1..]
  {
    var es := t.entries;
    LeafFlatten(t);
    assert es == es[..i] + [es[i]] + es[i + 1..];
    AtKey(es[..i], es[i], es[i + 1..], []);
  }

  // ---- Descending

  /** An operation on a key in gap `i` is the same operation on child `i`. */
  lemma {:induction false} InChild(t: Tree, i: nat, k: Key, v: Value, h: nat)
    requires Shape(t, h) && 0 < h && Sorted(Flatten(t)) && Gap(t.entries, i, k)
    ensures Sorted(Flatten(t.children[i]))
    ensures Find(Flatten(t), k) == Find(Flatten(t.children[i]), k)
    ensures Put(Flatten(t), k, v) == LeftOf(t, i) + Put(Flatten(t.children[i]), k, v) + RightOf(t, i)
    ensures Drop(Flatten(t), k) == LeftOf(t, i) + Drop(Flatten(t.children[i]), k) + RightOf(t, i)
  {
    AroundChild(t, i);
    ChildSorted(t, i);
    GapBounds(t, i, k);
    Focus(LeftOf(t, i), Flatten(t.children[i]), RightOf(t, i), k, v);
  }

  lemma {:induction false} WithChild(t: Tree, i: nat, c: Tree, h: nat)
    requires Shape(t, h) && 0 < h && i <= |t.entries| && Branch(c, h - 1)
    ensures Flatten(Edit(t, i, i, [], [c])) == LeftOf(t, i) + Flatten(c) + RightOf(t, i)
    ensures Shape(Edit(t, i, i, [], [c]), h)
    ensures Edit(t, i, i, [], [c]).entries == t.entries
  {
    EditFlatten(t, i, i, [], [c]);
    assert Flats([c]) == [Flatten(c)];
    EditShape(t, h, i, i, [], [c]);
  }

  // ---- Replacing an entry by its neighbour in key order

  lemma {:induction false} DropLast(s: seq<Entry>)
    requires Sorted(s) && s != []
    ensures Drop(s, s[|s| - 1].key) == s[..|s| - 1] && Find(s, s[|s| - 1].key).Some?
  {
    var n := |s| - 1;
    AtKey(s[..n], s[n], [], []);
    assert s == s[..n] + [s[n]] + [];
  }

  lemma {:induction false} FindLast(s: seq<Entry>)
    requires Sorted(s) && s != []
    ensures Find(s, s[|s| - 1].key) == Some(s[|s| - 1].value)
  {
    var n := |s| - 1;
    AtKey(s[..n], s[n], [], []);
    assert s == s[..n] + [s[n]] + [];
  }

  lemma {:induction false} DropFirst(s: seq<Entry>)
    requires Sorted(s) && s != []
    ensures Drop(s, s[0].key) == s[1..] && Find(s, s[0].key).Some?
  {
  }

  /** Removing entry `i` by moving up the last entry below child `i`. */
  lemma {:induction false} ByPredecessor(t: Tree, i: nat, c: Tree, h: nat)
    requires Shape(t, h) && 0 < h && i < |t.entries| && Sorted(Flatten(t))
    requires Branch(c, h - 1) && Flatten(t.children[i]) != []
    requires Flatten(c) == Flatten(t.children[i])[..|Flatten(t.children[i])| - 1]
    ensures var p := Flatten(t.children[i])[|Flatten(t.children[i])| - 1];
            Flatten(WithEntry(Edit(t, i, i, [], [c]), i, p)) == Drop(Flatten(t), t.entries[i].key)
  {
    var q, r := Flatten(t.children[i]), t.children[i + 1];
    var n := |q| - 1;
    var t' := WithEntry(Edit(t, i, i, [], [c]), i, q[n]);
    assert t'.children == t.children[..i] + [c, r] + t.children[i + 2..];
    assert t' == Edit(t, i, i + 1, [q[n]], [c, r]);
    EditFlatten(t, i, i + 1, [q[n]], [c, r]);
    TwoParts(c, q[n], r);
    assert q == q[..n] + [q[n]];
    FoundAtTop(t, i, []);
  }

  /** Removing entry `i` by moving up the first entry below child `i + 1`. */
  lemma {:induction false} BySuccessor(t: Tree, i: nat, c: Tree, h: nat)
    requires Shape(t, h) && 0 < h && i < |t.entries| && Sorted(Flatten(t))
    requires Branch(c, h - 1) && Flatten(t.children[i + 1]) != []
    requires Flatten(c) == Flatten(t.children[i + 1])[1..]
    ensures var p := Flatten(t.children[i + 1])[0];
            Flatten(WithEntry(Edit(t, i + 1, i + 1, [], [c]), i, p)) == Drop(Flatten(t), t.entries[i].key)
  {
    var l, q := t.children[i], Flatten(t.children[i + 1]);
    var t' := WithEntry(Edit(t, i + 1, i + 1, [], [c]), i, q[0]);
    assert t'.entries == t.entries[..i] + [q[0]] + t.entries[i + 1..];
    assert t'.children == t.children[..i] + [l, c] + t.children[i + 2..];
    assert t' == Edit(t, i, i + 1, [q[0]], [l, c]);
    EditFlatten(t, i, i + 1, [q[0]], [l, c]);
    TwoParts(l, q[0], c);
    assert q == [q[0]] + q[1..];
    FoundAtTop(t, i, []);
  }

  /** Both replacements, in full: the tree keeps its shape and loses exactly the entry. */
  lemma {:induction false} Replaced(t: Tree, i: nat, x: nat, c: Tree, p: Entry, h: nat)
    requires Shape(t, h) && 0 < h && i < |t.entries| && Sorted(Flatten(t)) && i <= x <= i + 1
    requires Branch(c, h - 1) && Flatten(t.children[x]) != []
    requires Flatten(c) == Drop(Flatten(t.children[x]), p.key)
    requires p == if x == i then Flatten(t.children[x])[|Flatten(t.children[x])| - 1] else Flatten(t.children[x])[0]
    ensures var t' := WithEntry(Edit(t, x, x, [], [c]), i, p);
            && Flatten(t') == Drop(Flatten(t), t.entries[i].key) && Flatten(t') != []
            && Shape(t', h) && |t'.entries| == |t.entries|
    ensures Find(Flatten(t), t.entries[i].key) == Some(t.entries[i].value)
  {
    var t1 := Edit(t, x, x, [], [c]);
    ChildSorted(t, x);
    DropLast(Flatten(t.children[x]));
    DropFirst(Flatten(t.children[x]));
    if x == i {
      ByPredecessor(t, i, c, h);
    } else {
      BySuccessor(t, i, c, h);
    }
    FoundAtTop(t, i, []);
    WithChild(t, x, c, h);
    WithEntryShape(t1, i, p, h);
    NonEmpty(WithEntry(t1, i, p), h);
  }

  /** A key in the gap beside a rotated entry stays in that gap. */
  lemma {:induction false} RotateGap(t: Tree, i: nat, key: Key, h: nat)
    requires Shape(t, h) && 0 < h && i < |t.entries| && Sorted(Flatten(t))
    ensures 0 < |t.children[i].entries| && Gap(t.entries, i + 1, key) ==> Gap(RotateFromLeft(t, i).entries, i + 1, key)
    ensures 0 < |t.children[i + 1].entries| && Gap(t.entries, i, key) ==> Gap(RotateFromRight(t, i).entries, i, key)
  {
    Neighbours(t, i);
  }
}
