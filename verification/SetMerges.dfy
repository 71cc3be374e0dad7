/** Set operations as merges of two ordered streams of keys. */
module SetMerges {
  import opened Types
  import opened SortedSeq
  import opened Trees
  import opened PageTrees
  import opened Nodes
  import opened Headers
  import opened BTree
  import opened Ranges
  import opened Iteration

  ghost predicate Has(s: seq<Entry>, k: Key) {
    exists i :: 0 <= i < |s| && s[i].key == k
  }

  ghost predicate Ascending(r: seq<Key>) {
    forall i, j :: 0 <= i < j < |r| ==> r[i] < r[j]
  }

  datatype Mode = Union | Intersection | SymmetricDifference | Difference

  /** Which keys an operation keeps. */
  predicate Wanted(m: Mode, inA: bool, inB: bool) {
    match m
    case Union => inA || inB
    case Intersection => inA && inB
    case SymmetricDifference => inA != inB
    case Difference => inA && !inB
  }

  ghost predicate Kept(m: Mode, a: seq<Entry>, b: seq<Entry>, k: Key) {
    Wanted(m, Has(a, k), Has(b, k))
  }

  /** Whether no key that is still to come can be wanted, by which of the streams have ended. */
  predicate Ended(m: Mode, doneA: bool, doneB: bool) {
    match m
    case Union => doneA && doneB
    case Intersection => doneA || doneB
    case SymmetricDifference => doneA && doneB
    case Difference => doneA
  }

  /** The merge has passed `i` keys of the one and `j` of the other; what it has passed lies below what comes. */
  ghost predicate Passed(a: seq<Entry>, b: seq<Entry>, i: nat, j: nat) {
    && i <= |a| && j <= |b|
    && (j < |b| ==> AllBelow(a[..i], b[j].key)) && (i < |a| ==> AllBelow(b[..j], a[i].key))
  }

  /** The keys kept so far are those wanted among the keys passed. */
  ghost predicate Merged(m: Mode, a: seq<Entry>, b: seq<Entry>, i: nat, j: nat, r: seq<Key>) {
    && Passed(a, b, i, j) && Ascending(r)
    && (forall k :: k in r <==> Wanted(m, Has(a[..i], k), Has(b[..j], k)))
  }

  lemma {:induction false} HasMore(s: seq<Entry>, i: nat, k: Key)
    requires i < |s|
    ensures Has(s[..i + 1], k) <==> Has(s[..i], k) || k == s[i].key
  {
    assert s[..i + 1][i] == s[i];
    if Has(s[..i], k) {
      var x :| 0 <= x < i && s[..i][x].key == k;
      assert s[..i + 1][x].key == k;
    }
    if Has(s[..i + 1], k) && k != s[i].key {
      var x :| 0 <= x < i + 1 && s[..i + 1][x].key == k;
      assert s[..i][x].key == k;
    }
  }

  lemma {:induction false} NotBelow(s: seq<Entry>, k: Key)
    requires AllBelow(s, k)
    ensures !Has(s, k) && forall x :: Has(s, x) ==> x < k
  {
  }

  /** The lesser of the two heads is passed, or both if they are equal. */
  lemma {:induction false} PassOne(m: Mode, a: seq<Entry>, b: seq<Entry>, i: nat, j: nat, r: seq<Key>, k: Key, inA: bool, inB: bool)
    requires Sorted(a) && Sorted(b) && Merged(m, a, b, i, j, r) && (inA || inB)
    requires inA <==> i < |a| && a[i].key == k
    requires inB <==> j < |b| && b[j].key == k
    requires (i < |a| ==> k <= a[i].key) && (j < |b| ==> k <= b[j].key)
    ensures var i', j' := if inA then i + 1 else i, if inB then j + 1 else j;
            Merged(m, a, b, i', j', if Wanted(m, inA, inB) then r + [k] else r)
  {
    hide Has, Wanted, Passed, Sorted, AllBelow;
    var i', j' := if inA then i + 1 else i, if inB then j + 1 else j;
    var r' := if Wanted(m, inA, inB) then r + [k] else r;
    PassedOne(a, b, i, j, k, inA, inB);
    BelowHead(a, b, i, j, k, inA, inB);
    NotBelow(a[..i], k);
    NotBelow(b[..j], k);
    KeptBelow(m, Has(a[..i], k), Has(b[..j], k));
    forall x
      ensures x in r' <==> Wanted(m, Has(a[..i'], x), Has(b[..j'], x))
    {
      HasPassed(a, i, k, inA, x);
      HasPassed(b, j, k, inB, x);
      assert x in r' <==> x in r || (Wanted(m, inA, inB) && x == k);
    }
    forall n | 0 <= n < |r|
      ensures r[n] < k
    {
      assert r[n] in r;
      KeptBelow(m, Has(a[..i], r[n]), Has(b[..j], r[n]));
    }
  }

  lemma {:induction false} KeptBelow(m: Mode, inA: bool, inB: bool)
    ensures Wanted(m, inA, inB) ==> inA || inB
  {
  }

  lemma {:induction false} HasPassed(s: seq<Entry>, i: nat, k: Key, taken: bool, x: Key)
    requires taken ==> i < |s| && s[i].key == k
    requires i <= |s|
    ensures Has(s[..if taken then i + 1 else i], x) <==> Has(s[..i], x) || (taken && x == k)
  {
    if taken {
      HasMore(s, i, x);
    }
  }

  /** All that has been passed is below the key that is passed next. */
  lemma {:induction false} BelowHead(a: seq<Entry>, b: seq<Entry>, i: nat, j: nat, k: Key, inA: bool, inB: bool)
    requires Sorted(a) && Sorted(b) && Passed(a, b, i, j) && (inA || inB)
    requires inA <==> i < |a| && a[i].key == k
    requires inB <==> j < |b| && b[j].key == k
    ensures AllBelow(a[..i], k) && AllBelow(b[..j], k)
  {
  }

  lemma {:induction false} PassedOne(a: seq<Entry>, b: seq<Entry>, i: nat, j: nat, k: Key, inA: bool, inB: bool)
    requires Sorted(a) && Sorted(b) && Passed(a, b, i, j)
    requires inA <==> i < |a| && a[i].key == k
    requires inB <==> j < |b| && b[j].key == k
    requires (i < |a| ==> k <= a[i].key) && (j < |b| ==> k <= b[j].key)
    ensures Passed(a, b, if inA then i + 1 else i, if inB then j + 1 else j)
  {
  }

  /** The stream of a set: the key at hand and what remains behind it. */
  ghost predicate Streams(s: seq<Entry>, i: nat, head: Option<Entry>, rest: seq<Entry>) {
    i <= |s| && head == (if i < |s| then Some(s[i]) else None) && rest == if i < |s| then s[i + 1..] else []
  }

  lemma {:induction false} StreamStep(s: seq<Entry>, i: nat, head: Option<Entry>, rest: seq<Entry>, head': Option<Entry>, rest': seq<Entry>)
    requires Streams(s, i, head, rest) && head.Some?
    requires head' == (if rest == [] then None else Some(rest[0])) && rest' == if rest == [] then [] else rest[1..]
    ensures Streams(s, i + 1, head', rest')
  {
  }

  /** Two iterators that share nothing, so that moving the one leaves the other as it is. */
  ghost predicate Together(it: RangeIter, other: RangeIter)
    reads it, it.btree, it.btree.store.Footprint(), it.NodesOf(it.forward), it.NodesOf(it.backward)
    reads other, other.btree, other.btree.store.Footprint(), other.NodesOf(other.forward), other.NodesOf(other.backward)
  {
    && it != other && it.Valid() && other.Valid() && it.NodesOf(it.forward) !! other.NodesOf(other.forward)
    && it.NodesOf(it.backward) == {} == other.NodesOf(other.backward)
  }

  /** Fetches the next key of one stream. */
  method Pull(it: RangeIter, other: RangeIter, ghost s: seq<Entry>, ghost i: nat, ghost head: Option<Entry>) returns (r: Option<Entry>)
    requires Together(it, other) && Streams(s, i, head, it.remaining) && head.Some?
    modifies it, it.NodesOf(it.forward)
    ensures Together(it, other) && Together(other, it) && Streams(s, i + 1, r, it.remaining)
    ensures other.remaining == old(other.remaining) && other.NodesOf(other.forward) == old(other.NodesOf(other.forward))
    ensures fresh(it.NodesOf(it.forward) - old(it.NodesOf(it.forward)))
  {
    hide NodeStore.Valid, NodeStore.Front, MapHeader, Stored, Owned, Shape, Flatten, Streams, Account, RangeIter.Stack;
    r := it.Next();
    StreamStep(s, i, head, old(it.remaining), r, it.remaining);
  }

  /** Starts one stream. */
  method Open(x: BTreeMap) returns (it: RangeIter, r: Option<Entry>)
    requires x.Valid()
    ensures it.Valid() && it.btree == x && fresh(it) && fresh(it.NodesOf(it.forward)) && it.NodesOf(it.backward) == {}
    ensures Streams(x.Contents(), 0, r, it.remaining)
  {
    hide NodeStore.Valid, NodeStore.Front, MapHeader, Stored, Owned, Shape, Flatten, InRange, Sorted, Streams, Account, RangeIter.Stack;
    it := new RangeIter(x, Unbounded, Unbounded);
    AllInRange(x.Contents());
    r := it.Next();
    StreamStart(x.Contents(), r, it.remaining);
  }

  /** Starts both streams. */
  method OpenBoth(x: BTreeMap, y: BTreeMap) returns (its: RangeIter, ito: RangeIter, p: Option<Entry>, q: Option<Entry>)
    requires x.Valid() && y.Valid()
    ensures Together(its, ito) && Together(ito, its) && fresh(its) && fresh(ito)
    ensures fresh(its.NodesOf(its.forward)) && fresh(ito.NodesOf(ito.forward))
    ensures Streams(x.Contents(), 0, p, its.remaining) && Streams(y.Contents(), 0, q, ito.remaining)
  {
    hide NodeStore.Valid, NodeStore.Front, MapHeader, Stored, Owned, Shape, Flatten, Streams, Account, RangeIter.Stack;
    its, p := Open(x);
    ito, q := Open(y);
  }

  lemma {:induction false} AllInRange(s: seq<Entry>)
    ensures InRange(s, Unbounded, Unbounded) == s
  {
    InRangeAll(s, Unbounded, Unbounded);
  }

  lemma {:induction false} StreamStart(s: seq<Entry>, head: Option<Entry>, rest: seq<Entry>)
    requires head == (if s == [] then None else Some(s[0])) && rest == if s == [] then [] else s[1..]
    ensures Streams(s, 0, head, rest)
  {
  }

  lemma {:induction false} StreamHead(s: seq<Entry>, i: nat, head: Option<Entry>, rest: seq<Entry>)
    requires Streams(s, i, head, rest)
    ensures i <= |s| && (head.Some? <==> i < |s|) && (head.Some? ==> head.value == s[i])
  {
  }

  lemma {:induction false} MergeStart(m: Mode, a: seq<Entry>, b: seq<Entry>)
    ensures Merged(m, a, b, 0, 0, [])
  {
    assert a[..0] == [] && b[..0] == [];
  }

  /** Where both sides stand in the merge, a key that one of them has passed is in the other only if that has passed it too. */
  lemma {:induction false} PassedByBoth(a: seq<Entry>, b: seq<Entry>, i: nat, j: nat, k: Key)
    requires Sorted(b) && Passed(a, b, i, j) && Has(a[..i], k)
    ensures Has(a, k) && (Has(b, k) <==> Has(b[..j], k))
  {
    var x :| 0 <= x < i && a[..i][x].key == k;
    assert a[x].key == k;
    assert Has(b[..j], k) ==> Has(b, k) by {
      assert forall y :: 0 <= y < j ==> b[..j][y] == b[y];
    }
    forall y | 0 <= y < |b| && b[y].key == k
      ensures Has(b[..j], k)
    {
      assert j < |b| ==> a[..i][x].key < b[j].key;
      assert y < j && b[..j][y].key == k;
    }
  }

  /** What has been kept stays wanted. */
  lemma {:induction false} KeptIsWanted(m: Mode, a: seq<Entry>, b: seq<Entry>, i: nat, j: nat, r: seq<Key>, k: Key)
    requires Sorted(a) && Sorted(b) && Merged(m, a, b, i, j, r) && (Has(a[..i], k) || Has(b[..j], k))
    ensures k in r <==> Kept(m, a, b, k)
  {
    if Has(a[..i], k) {
      PassedByBoth(a, b, i, j, k);
    }
    if Has(b[..j], k) {
      PassedByBoth(b, a, j, i, k);
    }
  }

  /** At the end nothing that is still to come is wanted. */
  lemma {:induction false} MergeDone(m: Mode, a: seq<Entry>, b: seq<Entry>, i: nat, j: nat, r: seq<Key>)
    requires Sorted(a) && Sorted(b) && Merged(m, a, b, i, j, r) && Ended(m, i == |a|, j == |b|)
    ensures Ascending(r) && forall k :: k in r <==> Kept(m, a, b, k)
  {
    assert (i == |a| ==> a[..i] == a) && (j == |b| ==> b[..j] == b);
    forall k
      ensures k in r <==> Kept(m, a, b, k)
    {
      if Has(a[..i], k) || Has(b[..j], k) {
        KeptIsWanted(m, a, b, i, j, r, k);
      }
    }
  }

  /** A merge that stops at the first key it keeps has kept a key that is wanted. */
  lemma {:induction false} FirstKept(m: Mode, a: seq<Entry>, b: seq<Entry>, i: nat, j: nat, r: seq<Key>)
    requires Sorted(a) && Sorted(b) && Merged(m, a, b, i, j, r) && r != []
    ensures Kept(m, a, b, r[0])
  {
    assert r[0] in r;
    KeptIsWanted(m, a, b, i, j, r, r[0]);
  }

  /** Merges the keys of two maps used as sets; with `firstOnly`, stops at the first key that is kept. */
  method Merge(x: BTreeMap, y: BTreeMap, m: Mode, firstOnly: bool) returns (r: seq<Key>)
    requires x.Valid() && y.Valid()
    ensures Ascending(r)
    ensures !firstOnly ==> forall k :: k in r <==> Kept(m, x.Contents(), y.Contents(), k)
    ensures r == [] <==> forall k :: !Kept(m, x.Contents(), y.Contents(), k)
    ensures !firstOnly && m == Union ==> forall k :: k in r <==> Has(x.Contents(), k) || Has(y.Contents(), k)
    ensures !firstOnly && m == Intersection ==> forall k :: k in r <==> Has(x.Contents(), k) && Has(y.Contents(), k)
    ensures !firstOnly && m == SymmetricDifference ==> forall k :: k in r <==> Has(x.Contents(), k) != Has(y.Contents(), k)
    ensures !firstOnly && m == Difference ==> forall k :: k in r <==> Has(x.Contents(), k) && !Has(y.Contents(), k)
  {
    hide NodeStore.Valid, NodeStore.Front, MapHeader, Stored, Owned, Shape, Flatten, Sorted, Passed, Streams, Has, Together, Wanted, Kept, Ended;
    ghost var a, b := x.Contents(), y.Contents();
    x.ContentsSorted();
    y.ContentsSorted();
    var its, ito, p, q := OpenBoth(x, y);
    ghost var i, j := 0, 0;
    r := [];
    MergeStart(m, a, b);
    StreamHead(a, i, p, its.remaining);
    StreamHead(b, j, q, ito.remaining);
    while !Ended(m, p.None?, q.None?) && !(firstOnly && r != [])
      invariant Together(its, ito) && Together(ito, its) && fresh(its) && fresh(ito)
      invariant fresh(its.NodesOf(its.forward)) && fresh(ito.NodesOf(ito.forward))
      invariant Streams(a, i, p, its.remaining) && Streams(b, j, q, ito.remaining) && Merged(m, a, b, i, j, r)
      invariant i <= |a| && j <= |b| && (p.Some? <==> i < |a|) && (q.Some? <==> j < |b|)
      decreases |a| + |b| - i - j
    {
      StreamHead(a, i, p, its.remaining);
      StreamHead(b, j, q, ito.remaining);
      BothEnded(m);
      var inA := p.Some? && (q.None? || p.value.key <= q.value.key);
      var inB := q.Some? && (p.None? || q.value.key <= p.value.key);
      var k := if inA then p.value.key else q.value.key;
      PassOne(m, a, b, i, j, r, k, inA, inB);
      if inA {
        p := Pull(its, ito, a, i, p);
        i := i + 1;
      }
      if inB {
        q := Pull(ito, its, b, j, q);
        j := j + 1;
      }
      if Wanted(m, inA, inB) {
        r := r + [k];
      }
      StreamHead(a, i, p, its.remaining);
      StreamHead(b, j, q, ito.remaining);
    }
    Outcome(m, a, b, i, j, r, firstOnly);
    assert x.Contents() == a && y.Contents() == b;
  }

  lemma {:induction false} KeptMeans(m: Mode, a: seq<Entry>, b: seq<Entry>)
    ensures m == Union ==> forall k :: Kept(m, a, b, k) <==> Has(a, k) || Has(b, k)
    ensures m == Intersection ==> forall k :: Kept(m, a, b, k) <==> Has(a, k) && Has(b, k)
    ensures m == SymmetricDifference ==> forall k :: Kept(m, a, b, k) <==> Has(a, k) != Has(b, k)
    ensures m == Difference ==> forall k :: Kept(m, a, b, k) <==> Has(a, k) && !Has(b, k)
  {
    hide Has;
  }

  lemma {:induction false} BothEnded(m: Mode)
    ensures Ended(m, true, true)
  {
  }

  lemma {:induction false} Outcome(m: Mode, a: seq<Entry>, b: seq<Entry>, i: nat, j: nat, r: seq<Key>, firstOnly: bool)
    requires Sorted(a) && Sorted(b) && Merged(m, a, b, i, j, r) && (Ended(m, i == |a|, j == |b|) || (firstOnly && r != []))
    ensures !firstOnly ==> forall k :: k in r <==> Kept(m, a, b, k)
    ensures r == [] <==> forall k :: !Kept(m, a, b, k)
    ensures !firstOnly && m == Union ==> forall k :: k in r <==> Has(a, k) || Has(b, k)
    ensures !firstOnly && m == Intersection ==> forall k :: k in r <==> Has(a, k) && Has(b, k)
    ensures !firstOnly && m == SymmetricDifference ==> forall k :: k in r <==> Has(a, k) != Has(b, k)
    ensures !firstOnly && m == Difference ==> forall k :: k in r <==> Has(a, k) && !Has(b, k)
  {
    hide Sorted, Merged, Has, Kept, Ended;
    KeptMeans(m, a, b);
    if Ended(m, i == |a|, j == |b|) {
      MergeDone(m, a, b, i, j, r);
    }
    if r != [] {
      FirstKept(m, a, b, i, j, r);
    }
  }

  /** Whether two sets share no key. */
  method IsDisjoint(x: BTreeMap, y: BTreeMap) returns (yes: bool)
    requires x.Valid() && y.Valid()
    ensures yes <==> forall k :: !(Has(x.Contents(), k) && Has(y.Contents(), k))
  {
    hide NodeStore.Valid, NodeStore.Front, MapHeader, Stored, Owned, Shape, Flatten, Has;
    var r := Merge(x, y, Intersection, true);
    yes := r == [];
    assert forall k :: Kept(Intersection, x.Contents(), y.Contents(), k) <==> Has(x.Contents(), k) && Has(y.Contents(), k);
  }

  /** Whether every key of the one set is in the other. */
  method IsSubset(x: BTreeMap, y: BTreeMap) returns (yes: bool)
    requires x.Valid() && y.Valid()
    ensures yes <==> forall k :: Has(x.Contents(), k) ==> Has(y.Contents(), k)
  {
    hide NodeStore.Valid, NodeStore.Front, MapHeader, Stored, Owned, Shape, Flatten, Has;
    var r := Merge(x, y, Difference, true);
    yes := r == [];
    assert forall k :: Kept(Difference, x.Contents(), y.Contents(), k) <==> Has(x.Contents(), k) && !Has(y.Contents(), k);
  }
}
