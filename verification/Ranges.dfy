/** Key ranges, and the part of a sorted sequence that lies in one. */
module Ranges {
  import opened Types
  import opened SortedSeq

  datatype Bound = Unbounded | Included(key: Key) | Excluded(key: Key)

  /** The key is on the inner side of a lower bound. */
  predicate Above(lo: Bound, k: Key) {
    match lo
    case Unbounded => true
    case Included(b) => b <= k
    case Excluded(b) => b < k
  }

  /** The key is on the inner side of an upper bound. */
  predicate Below(hi: Bound, k: Key) {
    match hi
    case Unbounded => true
    case Included(b) => k <= b
    case Excluded(b) => k < b
  }

  predicate Inside(lo: Bound, hi: Bound, k: Key) {
    Above(lo, k) && Below(hi, k)
  }

  /** The entries in a range. */
  ghost function InRange(s: seq<Entry>, lo: Bound, hi: Bound): seq<Entry> {
    if s == [] then []
    else (if Inside(lo, hi, s[0].key) then [s[0]] else []) + InRange(s[1..], lo, hi)
  }

  /** `rem` is what `lo` and `hi` leave of `s` when `pre` and `post` are taken off its two ends. */
  ghost predicate Framed(s: seq<Entry>, pre: seq<Entry>, rem: seq<Entry>, post: seq<Entry>, lo: Bound, hi: Bound) {
    && s == pre + rem + post
    && (forall e :: e in pre ==> !Above(lo, e.key))
    && (forall e :: e in post ==> !Below(hi, e.key))
    && (forall e :: e in rem ==> Inside(lo, hi, e.key))
  }

  lemma {:induction false} InRangeConcat(a: seq<Entry>, b: seq<Entry>, lo: Bound, hi: Bound)
    ensures InRange(a + b, lo, hi) == InRange(a, lo, hi) + InRange(b, lo, hi)
  {
    if a == [] {
      assert a + b == b;
    } else {
      assert (a + b)[1..] == a[1..] + b;
      InRangeConcat(a[1..], b, lo, hi);
    }
  }

  lemma {:induction false} InRangeAll(s: seq<Entry>, lo: Bound, hi: Bound)
    ensures (forall e :: e in s ==> Inside(lo, hi, e.key)) ==> InRange(s, lo, hi) == s
    ensures (forall e :: e in s ==> !Inside(lo, hi, e.key)) ==> InRange(s, lo, hi) == []
  {
    if s != [] {
      InRangeAll(s[1..], lo, hi);
      assert s[0] in s && forall e :: e in s[1..] ==> e in s;
    }
  }

  /** An entry is in range if its key keeps to both bounds: it may equal one that is included, not one that is excluded. */
  lemma {:induction false} InRangeMeans(s: seq<Entry>, lo: Bound, hi: Bound, e: Entry)
    ensures e in InRange(s, lo, hi) <==>
            && e in s
            && (lo.Included? ==> lo.key <= e.key) && (lo.Excluded? ==> lo.key < e.key)
            && (hi.Included? ==> e.key <= hi.key) && (hi.Excluded? ==> e.key < hi.key)
  {
    if s != [] {
      InRangeMeans(s[1..], lo, hi, e);
      assert e in s <==> e == s[0] || e in s[1..];
    }
  }

  lemma {:induction false} NothingInRange(lo: Bound, hi: Bound)
    ensures InRange([], lo, hi) == []
  {
  }

  /** What is in range is found in it, in order. */
  lemma {:induction false} InRangeAt(s: seq<Entry>, p: nat, lo: Bound, hi: Bound)
    requires p < |s| && Inside(lo, hi, s[p].key)
    ensures s[p] in InRange(s, lo, hi)
  {
    if 0 < p {
      InRangeAt(s[1..], p - 1, lo, hi);
    }
  }

  lemma {:induction false} InRangeSorted(s: seq<Entry>, lo: Bound, hi: Bound)
    requires Sorted(s)
    ensures Sorted(InRange(s, lo, hi))
    ensures forall p :: 0 <= p < |InRange(s, lo, hi)| ==> InRange(s, lo, hi)[p] in s && Inside(lo, hi, InRange(s, lo, hi)[p].key)
  {
    hide InRange;
    var pre, post := FrameOf(s, lo, hi);
    var r := InRange(s, lo, hi);
    assert forall p :: 0 <= p < |r| ==> r[p] == s[|pre| + p] && r[p] in r;
  }

  /** What is framed is what is in range. */
  lemma {:induction false} FramedInRange(s: seq<Entry>, pre: seq<Entry>, rem: seq<Entry>, post: seq<Entry>, lo: Bound, hi: Bound)
    requires Framed(s, pre, rem, post, lo, hi)
    ensures InRange(s, lo, hi) == rem
  {
    InRangeConcat(pre + rem, post, lo, hi);
    InRangeConcat(pre, rem, lo, hi);
    InRangeAll(pre, lo, hi);
    InRangeAll(rem, lo, hi);
    InRangeAll(post, lo, hi);
  }

  /** How many entries lie before a range, and how many before its end. */
  lemma {:induction false} StartOf(s: seq<Entry>, lo: Bound) returns (i: nat)
    requires Sorted(s)
    ensures i <= |s| && forall e :: e in s[..i] ==> !Above(lo, e.key)
    ensures forall x :: i <= x < |s| ==> Above(lo, s[x].key)
  {
    i := 0;
    while i < |s| && !Above(lo, s[i].key)
      invariant i <= |s| && forall x :: 0 <= x < i ==> !Above(lo, s[x].key)
    {
      i := i + 1;
    }
  }

  lemma {:induction false} EndOf(s: seq<Entry>, i: nat, hi: Bound) returns (j: nat)
    requires Sorted(s) && i <= |s|
    ensures i <= j <= |s| && (forall x :: i <= x < j ==> Below(hi, s[x].key))
    ensures forall x :: j <= x < |s| ==> !Below(hi, s[x].key)
  {
    j := i;
    while j < |s| && Below(hi, s[j].key)
      invariant i <= j <= |s| && forall x :: i <= x < j ==> Below(hi, s[x].key)
    {
      j := j + 1;
    }
  }

  /** The entries of a sorted sequence that are in a range lie together. */
  lemma {:induction false} FrameOf(s: seq<Entry>, lo: Bound, hi: Bound) returns (pre: seq<Entry>, post: seq<Entry>)
    requires Sorted(s)
    ensures Framed(s, pre, InRange(s, lo, hi), post, lo, hi)
  {
    hide Sorted, Above, Below, InRange;
    var i := StartOf(s, lo);
    var j := EndOf(s, i, hi);
    pre, post := s[..i], s[j..];
    forall e | e in s[i..j]
      ensures Inside(lo, hi, e.key)
    {
      var x :| 0 <= x < j - i && s[i..j][x] == e;
      assert s[i + x] == e;
    }
    forall e | e in post
      ensures !Below(hi, e.key)
    {
      var x :| 0 <= x < |post| && post[x] == e;
      assert s[j + x] == e;
    }
    assert s == pre + s[i..j] + post;
    FramedInRange(s, pre, s[i..j], post, lo, hi);
  }

  // ---- Taking entries from either end

  /** An entry that may come first does so exactly if it is in range. */
  lemma {:induction false} First(s: seq<Entry>, pre: seq<Entry>, rem: seq<Entry>, post: seq<Entry>, lo: Bound, hi: Bound, e: Entry, rest: seq<Entry>)
    requires Framed(s, pre, rem, post, lo, hi) && rem <= [e] + rest && e in s
    ensures Inside(lo, hi, e.key) <==> rem != []
    ensures rem != [] ==> rem[0] == e && rem[1..] <= rest
  {
    assert e in pre || e in rem || e in post;
    if rem != [] {
      assert rem[0] == ([e] + rest)[0] && rem[0] in rem;
      assert rem == [rem[0]] + rem[1..];
      assert rem[1..] == rest[..|rem| - 1];
    }
  }

  lemma {:induction false} Last(s: seq<Entry>, pre: seq<Entry>, rem: seq<Entry>, post: seq<Entry>, lo: Bound, hi: Bound, e: Entry, rest: seq<Entry>)
    requires Framed(s, pre, rem, post, lo, hi) && Ends(rest + [e], rem) && e in s
    ensures Inside(lo, hi, e.key) <==> rem != []
    ensures rem != [] ==> rem[|rem| - 1] == e && Ends(rest, rem[..|rem| - 1])
  {
    assert e in pre || e in rem || e in post;
    if rem != [] {
      var n, w := |rem| - 1, rest + [e];
      assert rem[n] == w[|w| - |rem|..][n] && rem[n] in rem;
      assert rem[..n] == rest[|rest| - n..];
    }
  }

  /** `t` is the end of `s`. */
  ghost predicate Ends(s: seq<Entry>, t: seq<Entry>) {
    |t| <= |s| && s[|s| - |t|..] == t
  }

  lemma {:induction false} FirstTaken(s: seq<Entry>, pre: seq<Entry>, rem: seq<Entry>, post: seq<Entry>, lo: Bound, hi: Bound)
    requires Sorted(s) && Framed(s, pre, rem, post, lo, hi) && rem != []
    ensures Framed(s, pre + [rem[0]], rem[1..], post, Excluded(rem[0].key), hi)
  {
    var n := |pre|;
    assert s[n] == rem[0];
    assert s == pre + [rem[0]] + rem[1..] + post;
    forall e | e in pre + [rem[0]]
      ensures e.key <= rem[0].key
    {
      var x :| 0 <= x <= n && (pre + [rem[0]])[x] == e;
      assert s[x] == e;
    }
    forall e | e in rem[1..]
      ensures rem[0].key < e.key && e in rem
    {
      var x :| 0 <= x < |rem| - 1 && rem[1..][x] == e;
      assert s[n + 1 + x] == e;
    }
  }

  lemma {:induction false} LastTaken(s: seq<Entry>, pre: seq<Entry>, rem: seq<Entry>, post: seq<Entry>, lo: Bound, hi: Bound)
    requires Sorted(s) && Framed(s, pre, rem, post, lo, hi) && rem != []
    ensures var m := |rem| - 1; Framed(s, pre, rem[..m], [rem[m]] + post, lo, Excluded(rem[m].key))
  {
    var m := |rem| - 1;
    var n := |pre| + m;
    var b := [rem[m]] + post;
    assert s[n] == rem[m];
    assert s == pre + rem[..m] + b;
    forall e | e in b
      ensures rem[m].key <= e.key
    {
      var x :| 0 <= x < |b| && b[x] == e;
      assert s[n + x] == e;
    }
    forall e | e in rem[..m]
      ensures e.key < rem[m].key && e in rem
    {
      var x :| 0 <= x < m && rem[..m][x] == e;
      assert s[|pre| + x] == e;
    }
  }

  // ---- Where a range starts and ends

  /** The entries above a lower bound, in a sorted sequence. */
  ghost function Beyond(lo: Bound, s: seq<Entry>): seq<Entry> {
    if s == [] || Above(lo, s[0].key) then s else Beyond(lo, s[1..])
  }

  /** The entries below an upper bound, in a sorted sequence. */
  ghost function Within(hi: Bound, s: seq<Entry>): seq<Entry> {
    if s == [] || Below(hi, s[|s| - 1].key) then s else Within(hi, s[..|s| - 1])
  }

  lemma {:induction false} BeyondSplit(lo: Bound, l: seq<Entry>, m: seq<Entry>, r: seq<Entry>)
    requires forall e :: e in l ==> !Above(lo, e.key)
    requires r == [] || Above(lo, r[0].key)
    ensures Beyond(lo, l + m + r) == Beyond(lo, m) + r
  {
    if l != [] {
      assert l[0] in l && (l + m + r)[1..] == l[1..] + m + r;
      BeyondSplit(lo, l[1..], m, r);
    } else if m != [] {
      assert l + m + r == m + r && (m + r)[1..] == l + m[1..] + r;
      BeyondSplit(lo, l, m[1..], r);
    } else {
      assert l + m + r == r;
    }
  }

  lemma {:induction false} WithinSplit(hi: Bound, l: seq<Entry>, m: seq<Entry>, r: seq<Entry>)
    requires forall e :: e in r ==> !Below(hi, e.key)
    requires l == [] || Below(hi, l[|l| - 1].key)
    ensures Within(hi, l + m + r) == l + Within(hi, m)
  {
    var s := l + m + r;
    if r != [] {
      var n := |r| - 1;
      assert r[n] in r && s[..|s| - 1] == l + m + r[..n];
      WithinSplit(hi, l, m, r[..n]);
    } else if m != [] {
      var n := |m| - 1;
      assert s == l + m && s[..|s| - 1] == l + m[..n] + r;
      WithinSplit(hi, l, m[..n], r);
    } else {
      assert s == l;
    }
  }

  /** All that remains is above the lower bound of the range, and below the upper. */
  lemma {:induction false} RemainsBeyond(s: seq<Entry>, pre: seq<Entry>, rem: seq<Entry>, post: seq<Entry>, lo: Bound, hi: Bound)
    requires Framed(s, pre, rem, post, lo, hi)
    ensures rem <= Beyond(lo, s) && Ends(Within(hi, s), rem)
  {
    hide Beyond, Within;
    if rem != [] {
      var r, w := rem + post, pre + rem;
      assert rem[0] in rem && r[0] == rem[0];
      BeyondSplit(lo, pre, [], r);
      assert pre + [] + r == s;
      assert w[|w| - 1] == rem[|rem| - 1] && rem[|rem| - 1] in rem;
      WithinSplit(hi, w, [], post);
      assert w + [] + post == s;
      assert Beyond(lo, []) + r == r && w + Within(hi, []) == w by { NothingBeyond(lo, hi); }
      assert w[|w| - |rem|..] == rem;
    }
  }

  lemma {:induction false} BeyondWithin(lo: Bound, hi: Bound, s: seq<Entry>)
    ensures forall e :: e in Beyond(lo, s) ==> e in s
    ensures forall e :: e in Within(hi, s) ==> e in s
    ensures lo.Unbounded? ==> Beyond(lo, s) == s
    ensures hi.Unbounded? ==> Within(hi, s) == s
    decreases |s|
  {
    if s != [] {
      BeyondWithin(lo, hi, s[1..]);
      BeyondWithin(lo, hi, s[..|s| - 1]);
    }
  }

  lemma {:induction false} NothingBeyond(lo: Bound, hi: Bound)
    ensures Beyond(lo, []) == [] && Within(hi, []) == []
  {
  }

  /** A stretch whose first entry is out of range can be left out. */
  lemma {:induction false} CutFront(rem: seq<Entry>, x: seq<Entry>, y: seq<Entry>, lo: Bound, hi: Bound)
    requires rem <= x + y && (forall e :: e in rem ==> Inside(lo, hi, e.key))
    requires y == [] || !Inside(lo, hi, y[0].key)
    ensures rem <= x
  {
    assert forall i :: 0 <= i < |rem| ==> Inside(lo, hi, rem[i].key) && rem[i] == (x + y)[i];
    assert y != [] ==> (x + y)[|x|] == y[0];
  }

  lemma {:induction false} CutBack(rem: seq<Entry>, x: seq<Entry>, y: seq<Entry>, lo: Bound, hi: Bound)
    requires Ends(y + x, rem) && (forall e :: e in rem ==> Inside(lo, hi, e.key))
    requires y == [] || !Inside(lo, hi, y[|y| - 1].key)
    ensures Ends(x, rem)
  {
    var w := y + x;
    assert forall i :: |w| - |rem| <= i < |w| ==> w[i] == rem[i - (|w| - |rem|)] && Inside(lo, hi, w[i].key);
    assert y != [] ==> w[|y| - 1] == y[|y| - 1];
  }
}
