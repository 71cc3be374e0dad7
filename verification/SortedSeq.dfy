/** The ordered-map view of a sequence of entries: the meaning of a B-tree is such a sequence. */
module SortedSeq {
  import opened Types

  ghost predicate Sorted(s: seq<Entry>) {
    forall i, j :: 0 <= i < j < |s| ==> s[i].key < s[j].key
  }

  ghost predicate AllBelow(s: seq<Entry>, k: Key) {
    forall i :: 0 <= i < |s| ==> s[i].key < k
  }

  ghost predicate AllAbove(k: Key, s: seq<Entry>) {
    forall i :: 0 <= i < |s| ==> k < s[i].key
  }

  /** The value stored under `k`. */
  ghost function Find(s: seq<Entry>, k: Key): Option<Value> {
    if s == [] then None
    else if s[0].key == k then Some(s[0].value)
    else Find(s[1..], k)
  }

  /** Sorted insertion, replacing the value of a key already present. */
  ghost function Put(s: seq<Entry>, k: Key, v: Value): seq<Entry> {
    if s == [] || k < s[0].key then [Entry(k, v)] + s
    else if s[0].key == k then [Entry(k, v)] + s[1..]
    else [s[0]] + Put(s[1..], k, v)
  }

  /** Removal of the entry of `k`, if there is one. */
  ghost function Drop(s: seq<Entry>, k: Key): seq<Entry> {
    if s == [] then []
    else if s[0].key == k then s[1..]
    else [s[0]] + Drop(s[1..], k)
  }

  /** The finite map a sequence of entries denotes. */
  ghost function ToMap(s: seq<Entry>): map<Key, Value> {
    if s == [] then map[] else ToMap(s[1..])[s[0].key := s[0].value]
  }

  // ---- The entries on either side of the key's gap take no part in an operation on the key.

  lemma {:induction false} SkipBelow(l: seq<Entry>, s: seq<Entry>, k: Key, v: Value)
    requires AllBelow(l, k)
    ensures Find(l + s, k) == Find(s, k)
    ensures Put(l + s, k, v) == l + Put(s, k, v)
    ensures Drop(l + s, k) == l + Drop(s, k)
  {
    if l == [] {
      assert l + s == s;
    } else {
      var l' := l[1..];
      assert (l + s)[1..] == l' + s && (l + s)[0] == l[0];
      SkipBelow(l', s, k, v);
      assert l == [l[0]] + l';
      assert Put(l + s, k, v) == [l[0]] + (l' + Put(s, k, v)) == l + Put(s, k, v);
      assert Drop(l + s, k) == [l[0]] + (l' + Drop(s, k)) == l + Drop(s, k);
    }
  }

  lemma {:induction false} SkipAbove(s: seq<Entry>, r: seq<Entry>, k: Key, v: Value)
    requires AllAbove(k, r)
    ensures Find(s + r, k) == Find(s, k)
    ensures Put(s + r, k, v) == Put(s, k, v) + r
    ensures Drop(s + r, k) == Drop(s, k) + r
  {
    if s == [] {
      assert s + r == r;
      AbsentAbove(r, k);
    } else {
      var s' := s[1..];
      assert (s + r)[1..] == s' + r && (s + r)[0] == s[0];
      SkipAbove(s', r, k, v);
      assert [Entry(k, v)] + (s + r) == ([Entry(k, v)] + s) + r;
      assert [Entry(k, v)] + (s' + r) == ([Entry(k, v)] + s') + r;
      assert [s[0]] + (Put(s', k, v) + r) == ([s[0]] + Put(s', k, v)) + r;
      assert [s[0]] + (Drop(s', k) + r) == ([s[0]] + Drop(s', k)) + r;
    }
  }

  lemma {:induction false} AbsentAbove(s: seq<Entry>, k: Key)
    requires AllAbove(k, s)
    ensures Find(s, k) == None && Drop(s, k) == s
  {
    if s != [] {
      AbsentAbove(s[1..], k);
    }
  }

  /** An operation on `k` acts on the part of the sequence around `k` only. */
  lemma Focus(l: seq<Entry>, s: seq<Entry>, r: seq<Entry>, k: Key, v: Value)
    requires AllBelow(l, k) && AllAbove(k, r)
    ensures Find(l + s + r, k) == Find(s, k)
    ensures Put(l + s + r, k, v) == l + Put(s, k, v) + r
    ensures Drop(l + s + r, k) == l + Drop(s, k) + r
  {
    SkipAbove(l + s, r, k, v);
    SkipBelow(l, s, k, v);
  }

  /** Operating on a key that is missing between two parts. */
  lemma {:induction false} AtGap(l: seq<Entry>, r: seq<Entry>, k: Key, v: Value)
    requires AllBelow(l, k) && AllAbove(k, r)
    ensures Find(l + r, k) == None && Drop(l + r, k) == l + r
    ensures Put(l + r, k, v) == l + [Entry(k, v)] + r
  {
    SkipBelow(l, r, k, v);
    AbsentAbove(r, k);
    assert Put(r, k, v) == [Entry(k, v)] + r;
    assert l + ([Entry(k, v)] + r) == l + [Entry(k, v)] + r;
  }

  /** Operating on a key found at a known position. */
  lemma AtKey(l: seq<Entry>, e: Entry, r: seq<Entry>, v: Value)
    requires AllBelow(l, e.key)
    ensures Find(l + [e] + r, e.key) == Some(e.value)
    ensures Put(l + [e] + r, e.key, v) == l + [Entry(e.key, v)] + r
    ensures Drop(l + [e] + r, e.key) == l + r
  {
    assert l + [e] + r == l + ([e] + r);
    assert ([e] + r)[1..] == r;
    SkipBelow(l, [e] + r, e.key, v);
  }

  lemma {:induction false} AboveKept(s: seq<Entry>, k: Key, v: Value, b: Key)
    requires AllAbove(b, s)
    ensures b < k ==> AllAbove(b, Put(s, k, v))
    ensures AllAbove(b, Drop(s, k))
  {
    if s != [] {
      AboveKept(s[1..], k, v, b);
    }
  }

  /** Every operation keeps the sequence sorted. */
  lemma {:induction false} PutSorted(s: seq<Entry>, k: Key, v: Value)
    requires Sorted(s)
    ensures Sorted(Put(s, k, v))
    ensures |Put(s, k, v)| == |s| + (if Find(s, k).None? then 1 else 0)
  {
    if s == [] || k < s[0].key {
      AbsentAbove(s, k);
    } else if s[0].key != k {
      PutSorted(s[1..], k, v);
      AboveKept(s[1..], k, v, s[0].key);
    }
  }

  lemma {:induction false} DropSorted(s: seq<Entry>, k: Key)
    requires Sorted(s)
    ensures Sorted(Drop(s, k))
    ensures |Drop(s, k)| == |s| - (if Find(s, k).None? then 0 else 1)
    ensures Find(s, k).None? ==> Drop(s, k) == s
  {
    if s != [] && s[0].key != k {
      DropSorted(s[1..], k);
      AboveKept(s[1..], k, [], s[0].key);
    }
  }

  lemma {:induction false} AboveAbsent(s: seq<Entry>, k: Key)
    requires AllAbove(k, s)
    ensures k !in ToMap(s)
  {
    if s != [] {
      AboveAbsent(s[1..], k);
    }
  }

  /** What the three operations mean for the map. */
  lemma {:induction false} PutMeaning(s: seq<Entry>, k: Key, v: Value)
    requires Sorted(s)
    ensures ToMap(Put(s, k, v)) == ToMap(s)[k := v]
  {
    var p := Put(s, k, v);
    if s == [] || k < s[0].key {
      assert p[1..] == s;
    } else if s[0].key == k {
      assert p[1..] == s[1..];
    } else {
      assert p[1..] == Put(s[1..], k, v);
      PutMeaning(s[1..], k, v);
    }
  }

  lemma {:induction false} DropMeaning(s: seq<Entry>, k: Key)
    requires Sorted(s)
    ensures ToMap(Drop(s, k)) == ToMap(s) - {k}
  {
    if s != [] {
      if s[0].key == k {
        AboveAbsent(s[1..], k);
      } else {
        assert Drop(s, k)[1..] == Drop(s[1..], k);
        DropMeaning(s[1..], k);
      }
    }
  }

  lemma {:induction false} FindMeaning(s: seq<Entry>, k: Key)
    ensures Find(s, k) == if k in ToMap(s) then Some(ToMap(s)[k]) else None
  {
    if s != [] {
      FindMeaning(s[1..], k);
    }
  }

  /** A sorted sequence has one element per key. */
  lemma {:induction false} MapSize(s: seq<Entry>)
    requires Sorted(s)
    ensures |ToMap(s)| == |s|
  {
    if s != [] {
      MapSize(s[1..]);
      AboveAbsent(s[1..], s[0].key);
    }
  }

  // ---- One operation after another

  lemma {:induction false} FindAfterPut(s: seq<Entry>, k: Key, v: Value, j: Key)
    requires Sorted(s)
    ensures Find(Put(s, k, v), j) == if j == k then Some(v) else Find(s, j)
  {
    hide Find, Put, ToMap;
    PutMeaning(s, k, v);
    FindMeaning(s, j);
    FindMeaning(Put(s, k, v), j);
  }

  lemma {:induction false} FindAfterDrop(s: seq<Entry>, k: Key, j: Key)
    requires Sorted(s)
    ensures Find(Drop(s, k), j) == if j == k then None else Find(s, j)
  {
    hide Find, Drop, ToMap;
    DropMeaning(s, k);
    FindMeaning(s, j);
    FindMeaning(Drop(s, k), j);
  }

  /** Putting a key back where it was taken from, or taking away what was put, leaves no trace. */
  lemma {:induction false} Undone(s: seq<Entry>, k: Key, v: Value, w: Value)
    requires Sorted(s)
    ensures Find(s, k) == None ==> Drop(Put(s, k, v), k) == s
    ensures Find(s, k) == Some(w) ==> Put(Put(s, k, v), k, w) == s
    ensures Find(s, k) == Some(w) ==> Put(Drop(s, k), k, w) == s
  {
    if s == [] || k < s[0].key {
      AbsentAbove(s, k);
      assert ([Entry(k, v)] + s)[1..] == s;
    } else if s[0].key == k {
      assert s == [s[0]] + s[1..] && ([Entry(k, v)] + s[1..])[1..] == s[1..];
    } else {
      Undone(s[1..], k, v, w);
      assert s == [s[0]] + s[1..];
      assert ([s[0]] + Put(s[1..], k, v))[1..] == Put(s[1..], k, v);
      assert ([s[0]] + Drop(s[1..], k))[1..] == Drop(s[1..], k);
    }
  }

  lemma {:induction false} FoundAt(s: seq<Entry>, k: Key) returns (p: nat)
    requires Find(s, k).Some?
    ensures p < |s| && s[p] == Entry(k, Find(s, k).value)
  {
    if s[0].key == k {
      p := 0;
    } else {
      var q := FoundAt(s[1..], k);
      p := q + 1;
    }
  }

  lemma {:induction false} FindAt(s: seq<Entry>, p: nat)
    requires Sorted(s) && p < |s|
    ensures Find(s, s[p].key) == Some(s[p].value)
  {
    if 0 < p {
      FindAt(s[1..], p - 1);
    }
  }
}
