/** A binary heap on a slot vector. Items are moved into a hole; the item that travels is written last. */
module MinHeaps {
  import opened Types
  import opened BaseVecs

  /** Items are compared by rank: every total preorder on a countable type is that of some ranking by reals. */
  type Ranking = Bytes -> real

  function Parent(i: nat): nat
    requires 0 < i
  {
    (i - 1) / 2
  }

  ghost predicate Ordered(rank: Ranking, s: seq<Bytes>, i: nat)
    requires 0 < i < |s|
  {
    rank(s[Parent(i)]) <= rank(s[i])
  }

  ghost predicate HeapOrder(rank: Ranking, s: seq<Bytes>) {
    forall i :: 0 < i < |s| ==> Ordered(rank, s, i)
  }

  /** All is in order but slot `i` may be below its parent, which is above the children of slot `i`. */
  ghost predicate Rising(rank: Ranking, s: seq<Bytes>, i: nat) {
    && i < |s|
    && (forall j :: 0 < j < |s| && j != i ==> Ordered(rank, s, j))
    && (0 < i ==> forall j :: 0 < j < |s| && Parent(j) == i ==> rank(s[Parent(i)]) <= rank(s[j]))
  }

  /** All is in order but slot `i` may be above its children, which are not below its parent. */
  ghost predicate Sinking(rank: Ranking, s: seq<Bytes>, i: nat) {
    && i < |s|
    && (forall j :: 0 < j < |s| && Parent(j) != i ==> Ordered(rank, s, j))
    && (0 < i ==> forall j :: 0 < j < |s| && Parent(j) == i ==> rank(s[Parent(i)]) <= rank(s[j]))
  }

  ghost function Swapped(s: seq<Bytes>, i: nat, j: nat): seq<Bytes>
    requires i < |s| && j < |s|
  {
    s[i := s[j]][j := s[i]]
  }

  lemma {:induction false} SwapKeeps(s: seq<Bytes>, i: nat, j: nat)
    requires i < |s| && j < |s|
    ensures multiset(Swapped(s, i, j)) == multiset(s)
  {
    var t := s[i := s[j]];
    assert multiset(t) == multiset(s) - multiset{s[i]} + multiset{s[j]};
    assert t[j] == s[j];
    assert multiset(t[j := s[i]]) == multiset(t) - multiset{t[j]} + multiset{s[i]};
  }

  lemma {:induction false} RiseStep(rank: Ranking, s: seq<Bytes>, i: nat)
    requires Rising(rank, s, i) && 0 < i && rank(s[i]) < rank(s[Parent(i)])
    ensures Rising(rank, Swapped(s, i, Parent(i)), Parent(i))
  {
    var p, t := Parent(i), Swapped(s, i, Parent(i));
    forall j | 0 < j < |t| && j != p
      ensures Ordered(rank, t, j)
    {
      assert j != i ==> Ordered(rank, s, j);
      assert p < i;
    }
    if 0 < p {
      assert Ordered(rank, s, p);
      forall j | 0 < j < |t| && Parent(j) == p
        ensures rank(t[Parent(p)]) <= rank(t[j])
      {
        assert j != i ==> Ordered(rank, s, j);
      }
    }
  }

  lemma {:induction false} RiseDone(rank: Ranking, s: seq<Bytes>, i: nat)
    requires Rising(rank, s, i) && (0 < i ==> rank(s[Parent(i)]) <= rank(s[i]))
    ensures HeapOrder(rank, s)
  {
  }

  lemma {:induction false} SinkStep(rank: Ranking, s: seq<Bytes>, i: nat, c: nat)
    requires Sinking(rank, s, i) && c < |s| && 0 < c && Parent(c) == i && rank(s[c]) < rank(s[i])
    requires forall j :: 0 < j < |s| && Parent(j) == i ==> rank(s[c]) <= rank(s[j])
    ensures Sinking(rank, Swapped(s, i, c), c)
  {
    var t := Swapped(s, i, c);
    assert i < c;
    forall j | 0 < j < |t| && Parent(j) != c
      ensures Ordered(rank, t, j)
    {
      if Parent(j) != i {
        assert Ordered(rank, s, j);
      }
    }
    forall j | 0 < j < |t| && Parent(j) == c
      ensures rank(t[Parent(c)]) <= rank(t[j])
    {
      assert Ordered(rank, s, j);
    }
  }

  lemma {:induction false} SinkDone(rank: Ranking, s: seq<Bytes>, i: nat)
    requires Sinking(rank, s, i) && forall j :: 0 < j < |s| && Parent(j) == i ==> rank(s[i]) <= rank(s[j])
    ensures HeapOrder(rank, s)
  {
    forall j | 0 < j < |s|
      ensures Ordered(rank, s, j)
    {
    }
  }

  /** The root of a heap is a least item. */
  lemma {:induction false} RootLeast(rank: Ranking, s: seq<Bytes>, i: nat)
    requires HeapOrder(rank, s) && i < |s|
    ensures rank(s[0]) <= rank(s[i])
  {
    if 0 < i {
      assert Ordered(rank, s, i);
      RootLeast(rank, s, Parent(i));
    }
  }

  class MinHeap {
    const vec: BaseVec
    const rank: Ranking

    ghost predicate Valid()
      reads this, vec, vec.memory
    {
      vec.Valid() && HeapOrder(rank, vec.items)
    }

    constructor (vec: BaseVec, rank: Ranking)
      requires vec.Valid() && vec.items == []
      ensures Valid() && this.vec == vec && this.rank == rank
    {
      this.vec, this.rank := vec, rank;
    }

    method Push(item: Bytes)
      requires Valid() && Fits(vec.bounds, item)
      modifies vec, vec.memory
      ensures Valid() && multiset(vec.items) == multiset(old(vec.items)) + multiset{item}
    {
      hide BaseVec.Valid;
      ghost var s := vec.items;
      var _ := vec.Push(item, true, true);
      PushedLast(s, item);
      var n := vec.Len();
      BubbleUp(n - 1, item);
    }

    lemma PushedLast(s: seq<Bytes>, item: Bytes)
      requires HeapOrder(rank, s)
      ensures Rising(rank, s + [item], |s|)
    {
      var t := s + [item];
      forall j | 0 < j < |t| && j != |s|
        ensures Ordered(rank, t, j)
      {
        assert Ordered(rank, s, j);
      }
    }

    /** Moves an item up from slot `start` to where it belongs. */
    method BubbleUp(start: nat, item: Bytes)
      requires vec.Valid() && start < |vec.items| && Rising(rank, vec.items, start) && vec.items[start] == item && Fits(vec.bounds, item)
      modifies vec, vec.memory
      ensures Valid() && multiset(vec.items) == multiset(old(vec.items))
    {
      hide BaseVec.Valid, Rising, HeapOrder, Swapped;
      var i: nat, swapped := start, false;
      ghost var v := vec.items;
      while 0 < i
        invariant vec.Valid() && i < |vec.items| && vec.items[i := item] == v && Rising(rank, v, i)
        invariant multiset(v) == multiset(old(vec.items)) && (!swapped ==> vec.items == v)
      {
        vec.AllFit();
        var p := Parent(i);
        var parent := vec.Get(p);
        assert parent.value == v[p] && v[i] == item;
        if rank(item) < rank(parent.value) {
          vec.Set(i, parent.value);
          swapped := true;
        } else {
          break;
        }
        RiseStep(rank, v, i);
        SwapKeeps(v, i, p);
        Moved(vec.items, v, i, p, item);
        v := Swapped(v, i, p);
        i := p;
      }
      RiseDone(rank, v, i);
      if swapped {
        vec.Set(i, item);
      }
    }

    /** With the hole filled in, moving an item into the hole is a swap. */
    lemma Moved(items: seq<Bytes>, v: seq<Bytes>, i: nat, j: nat, item: Bytes)
      requires i < |v| && j < |v| && i != j && v[i] == item && |items| == |v| && items == items[i := v[j]] && v == items[i := item]
      ensures Swapped(v, i, j) == items[j := item]
    {
    }

    /** The smallest item, removed. */
    method Pop() returns (r: Option<Bytes>)
      requires Valid()
      modifies vec, vec.memory
      ensures Valid()
      ensures r.None? <==> old(vec.items) == []
      ensures r.None? ==> vec.items == []
      ensures r.Some? ==> r.value in old(vec.items) && (forall x :: x in old(vec.items) ==> rank(r.value) <= rank(x))
      ensures r.Some? ==> multiset(vec.items) + multiset{r.value} == multiset(old(vec.items))
    {
      hide BaseVec.Valid, Sinking, HeapOrder;
      ghost var s := vec.items;
      var n := vec.Len();
      RootAmongAll(s);
      if n == 0 {
        r := None;
      } else if n == 1 {
        r := vec.Pop();
        assert s == [s[0]] && s[..0] == [];
        OneIsHeap([]);
      } else {
        r := vec.Get(0);
        vec.AllFit();
        var last := vec.Pop();
        vec.Set(0, last.value);
        LastToRoot(s);
        BubbleDown(0, n - 1, last.value);
      }
    }

    lemma OneIsHeap(s: seq<Bytes>)
      requires |s| <= 1
      ensures HeapOrder(rank, s)
    {
    }

    lemma RootAmongAll(s: seq<Bytes>)
      requires HeapOrder(rank, s)
      ensures s != [] ==> s[0] in s && forall x :: x in s ==> rank(s[0]) <= rank(x)
    {
      hide HeapOrder;
      forall x | x in s
        ensures rank(s[0]) <= rank(x)
      {
        var i :| 0 <= i < |s| && s[i] == x;
        RootLeast(rank, s, i);
      }
    }

    /** The last item in the place of the root. */
    lemma LastToRoot(s: seq<Bytes>)
      requires HeapOrder(rank, s) && 1 < |s|
      ensures var n := |s| - 1; var t := s[..n][0 := s[n]];
              Sinking(rank, t, 0) && multiset(t) + multiset{s[0]} == multiset(s)
    {
      var n := |s| - 1;
      var t := s[..n][0 := s[n]];
      forall j | 0 < j < |t| && Parent(j) != 0
        ensures Ordered(rank, t, j)
      {
        assert Ordered(rank, s, j);
      }
      assert s == s[..n] + [s[n]];
      assert s[..n][0] == s[0];
      assert multiset(t) == multiset(s[..n]) - multiset{s[0]} + multiset{s[n]};
    }

    /** Moves an item down from slot `start` to where it belongs. */
    method BubbleDown(start: nat, n: nat, item: Bytes)
      requires vec.Valid() && start < |vec.items| == n && Sinking(rank, vec.items, start) && vec.items[start] == item && Fits(vec.bounds, item)
      modifies vec, vec.memory
      ensures Valid() && multiset(vec.items) == multiset(old(vec.items))
    {
      hide BaseVec.Valid, Sinking, HeapOrder, Swapped, Parent;
      var i: nat, swapped := start, false;
      ghost var v := vec.items;
      while true
        invariant vec.Valid() && i < |vec.items| == n && vec.items[i := item] == v && Sinking(rank, v, i)
        invariant multiset(v) == multiset(old(vec.items)) && (!swapped ==> vec.items == v)
        decreases n - i
      {
        var c := LesserChild(i, n, item, v);
        if c.None? {
          break;
        }
        var (at, moved) := c.value;
        vec.AllFit();
        vec.Set(i, moved);
        swapped := true;
        SinkStep(rank, v, i, at);
        SwapKeeps(v, i, at);
        Moved(vec.items, v, i, at, item);
        v := Swapped(v, i, at);
        i := at;
      }
      SinkDone(rank, v, i);
      if swapped {
        vec.Set(i, item);
      }
    }

    /** The lesser of the children of slot `i`, if it is less than the item that sinks. */
    method LesserChild(i: nat, n: nat, item: Bytes, ghost v: seq<Bytes>) returns (c: Option<(nat, Bytes)>)
      requires vec.Valid() && i < |vec.items| == n && vec.items[i := item] == v
      ensures c.Some? ==> i < c.value.0 < n && Parent(c.value.0) == i && c.value.1 == v[c.value.0] && rank(v[c.value.0]) < rank(v[i])
      ensures c.Some? ==> forall j :: 0 < j < n && Parent(j) == i ==> rank(v[c.value.0]) <= rank(v[j])
      ensures c.None? ==> forall j :: 0 < j < n && Parent(j) == i ==> rank(v[i]) <= rank(v[j])
    {
      hide BaseVec.Valid;
      var l, r := i * 2 + 1, i * 2 + 2;
      if n <= l {
        c := None;
      } else if n <= r {
        var left := vec.Get(l);
        c := if rank(left.value) < rank(item) then Some((l, left.value)) else None;
      } else {
        var left := vec.Get(l);
        var right := vec.Get(r);
        var at, least := r, right.value;
        if rank(left.value) < rank(right.value) {
          at, least := l, left.value;
        }
        c := if rank(least) < rank(item) then Some((at, least)) else None;
      }
    }
  }

  /** What is left after a pop was there before. */
  lemma {:induction false} Remainder(s: seq<Bytes>, t: seq<Bytes>, x: Bytes)
    requires multiset(t) + multiset{x} == multiset(s)
    ensures |t| + 1 == |s| && forall y :: y in t ==> y in s
  {
    assert |multiset(s)| == |s| && |multiset(t)| == |t|;
    forall y | y in t
      ensures y in s
    {
      assert multiset(t)[y] > 0;
      assert multiset(s)[y] > 0;
    }
  }

  /** Popping everything yields everything, the least first. */
  method Drain(heap: MinHeap) returns (sorted: seq<Bytes>)
    requires heap.Valid()
    modifies heap.vec, heap.vec.memory
    ensures heap.Valid() && heap.vec.items == []
    ensures multiset(sorted) == multiset(old(heap.vec.items))
    ensures forall i, j :: 0 <= i < j < |sorted| ==> heap.rank(sorted[i]) <= heap.rank(sorted[j])
  {
    hide BaseVec.Valid, HeapOrder;
    sorted := [];
    while true
      invariant heap.Valid() && multiset(sorted) + multiset(heap.vec.items) == multiset(old(heap.vec.items))
      invariant forall i, j :: 0 <= i < j < |sorted| ==> heap.rank(sorted[i]) <= heap.rank(sorted[j])
      invariant forall i, x :: 0 <= i < |sorted| && x in heap.vec.items ==> heap.rank(sorted[i]) <= heap.rank(x)
      decreases |heap.vec.items|
    {
      ghost var before := heap.vec.items;
      var r := heap.Pop();
      if r.None? {
        break;
      }
      Remainder(before, heap.vec.items, r.value);
      sorted := sorted + [r.value];
    }
  }

  /** Pushing items and popping them all sorts them: the least first, and each as often as it was pushed. */
  method Sort(heap: MinHeap, items: seq<Bytes>) returns (sorted: seq<Bytes>)
    requires heap.Valid() && heap.vec.items == [] && forall i :: 0 <= i < |items| ==> Fits(heap.vec.bounds, items[i])
    modifies heap.vec, heap.vec.memory
    ensures multiset(sorted) == multiset(items)
    ensures forall i, j :: 0 <= i < j < |sorted| ==> heap.rank(sorted[i]) <= heap.rank(sorted[j])
  {
    hide BaseVec.Valid, HeapOrder;
    for i := 0 to |items|
      invariant heap.Valid() && multiset(heap.vec.items) == multiset(items[..i])
    {
      heap.Push(items[i]);
      assert items[..i + 1] == items[..i] + [items[i]];
    }
    assert items[..|items|] == items;
    sorted := Drain(heap);
  }
}
