/** A node as one string of bytes spread over an initial page and a chain of overflow pages. */
module Paging {
  import opened Types
  import opened Layout
  import opened Memories

  const MINIMUM_PAGE_SIZE: nat := 128
  const PAGE_OVERFLOW_NEXT_OFFSET: nat := 3
  const PAGE_OVERFLOW_DATA_OFFSET: nat := 11

  const OVERFLOW_MAGIC: Bytes := [78, 79, 70]

  type PageSize = n: nat | MINIMUM_PAGE_SIZE <= n witness MINIMUM_PAGE_SIZE

  // ---- Division

  lemma {:induction false} NonzeroTimes(d: int, c: int)
    requires 0 <= c
    ensures 0 < d ==> c <= d * c
    ensures d < 0 ==> d * c <= -c
    decreases if d < 0 then -d else d
  {
    if 0 < d {
      NonzeroTimes(d - 1, c);
      assert d * c == (d - 1) * c + c;
    } else if d < 0 {
      NonzeroTimes(d + 1, c);
      assert d * c == (d + 1) * c - c;
    }
  }

  lemma {:induction false} DivUnique(z: nat, c: nat, q: nat, r: nat)
    requires 0 < c && z == q * c + r && r < c
    ensures z / c == q && z % c == r
  {
    var d := z / c - q;
    assert z == z / c * c + z % c;
    assert d * c == z / c * c - q * c;
    NonzeroTimes(d, c);
  }

  lemma {:induction false} DivStep(z: nat, c: nat, d: nat)
    requires 0 < c && z % c + d < c
    ensures (z + d) / c == z / c && (z + d) % c == z % c + d
  {
    DivUnique(z + d, c, z / c, z % c + d);
  }

  lemma {:induction false} DivBelow(z: nat, c: nat, n: nat)
    requires 0 < c
    ensures z < n * c <==> z / c < n
  {
    var q, r := z / c, z % c;
    assert z == q * c + r;
    assert n * c - q * c == (n - q) * c;
    NonzeroTimes(n - q, c);
  }

  // ---- Where a byte of the node lives

  /** The data an overflow page holds. */
  function Capacity(ps: PageSize): nat {
    ps - PAGE_OVERFLOW_DATA_OFFSET
  }

  /** How many bytes `n` overflow pages make room for, in all. */
  function Extent(ps: PageSize, n: nat): nat {
    ps + n * Capacity(ps)
  }

  /** The number of overflow pages needed for `size` bytes. */
  function NumOverflowPages(size: nat, ps: PageSize): (n: nat)
    ensures size <= Extent(ps, n)
    ensures forall k: nat :: size <= Extent(ps, k) ==> n <= k
  {
    if ps < size then
      var n := (size - ps + Capacity(ps) - 1) / Capacity(ps);
      EnoughPages(size, ps);
      n
    else 0
  }

  lemma {:induction false} EnoughPages(size: nat, ps: PageSize)
    requires ps < size
    ensures var n := (size - ps + Capacity(ps) - 1) / Capacity(ps);
            size <= Extent(ps, n) && forall k: nat :: size <= Extent(ps, k) ==> n <= k
  {
    var c := Capacity(ps);
    var z := size - ps + c - 1;
    var n := z / c;
    assert z == n * c + z % c;
    forall k: nat | size <= Extent(ps, k)
      ensures n <= k
    {
      DivBelow(z, c, k + 1);
      assert (k + 1) * c == k * c + c;
    }
  }

  lemma {:induction false} ExtentGrows(ps: PageSize, m: nat, n: nat)
    requires m <= n
    ensures Extent(ps, m) <= Extent(ps, n)
  {
    NonzeroTimes(n - m, Capacity(ps));
    assert n * Capacity(ps) - m * Capacity(ps) == (n - m) * Capacity(ps);
  }

  /** The page byte `x` of the node is in, and its place in that page. */
  function PageOf(ps: PageSize, x: nat): nat {
    if x < ps then 0 else (x - ps) / Capacity(ps) + 1
  }

  function PlaceOf(ps: PageSize, x: nat): (y: nat)
    ensures y < ps
  {
    if x < ps then x else PAGE_OVERFLOW_DATA_OFFSET + (x - ps) % Capacity(ps)
  }

  lemma {:induction false} PageInExtent(ps: PageSize, x: nat, n: nat)
    ensures x < Extent(ps, n) <==> PageOf(ps, x) <= n
  {
    if ps <= x {
      DivBelow(x - ps, Capacity(ps), n);
    }
  }

  /** The address of byte `x` in the pages `p`, the initial page first. */
  function Real(p: seq<Address>, ps: PageSize, x: nat): Address
    requires PageOf(ps, x) < |p|
  {
    p[PageOf(ps, x)] + PlaceOf(ps, x)
  }

  /** Pages lie apart and within the memory. */
  ghost predicate PagesApart(b: Bytes, p: seq<Address>, ps: PageSize) {
    && (forall i :: 0 <= i < |p| ==> p[i] + ps <= |b|)
    && (forall i, j :: 0 <= i < |p| && 0 <= j < |p| && i != j ==> p[i] + ps <= p[j] || p[j] + ps <= p[i])
  }

  lemma {:induction false} PlaceInjective(ps: PageSize, x: nat, y: nat)
    requires PageOf(ps, x) == PageOf(ps, y) && PlaceOf(ps, x) == PlaceOf(ps, y)
    ensures x == y
  {
    if ps <= x && ps <= y {
      var c := Capacity(ps);
      assert x - ps == (x - ps) / c * c + (x - ps) % c;
      assert y - ps == (y - ps) / c * c + (y - ps) % c;
    }
  }

  /** Different bytes have different addresses. */
  lemma {:induction false} RealInjective(b: Bytes, p: seq<Address>, ps: PageSize, x: nat, y: nat)
    requires PagesApart(b, p, ps) && PageOf(ps, x) < |p| && PageOf(ps, y) < |p| && x != y
    ensures Real(p, ps, x) != Real(p, ps, y) && Real(p, ps, x) < |b|
  {
    if PageOf(ps, x) == PageOf(ps, y) && PlaceOf(ps, x) == PlaceOf(ps, y) {
      PlaceInjective(ps, x, y);
    }
  }

  // ---- Segments

  /** The part of a page that a stretch of the node starts in. */
  datatype RealSegment = RealSegment(page: nat, offset: nat, length: nat)

  /** The first real segment of the `n` bytes from `x` on: up to the end of its page. */
  function NextSegment(ps: PageSize, x: nat, n: nat): (s: RealSegment)
    requires 0 < n
    ensures s.page == PageOf(ps, x) && s.offset == PlaceOf(ps, x) && 0 < s.length <= n && s.offset + s.length <= ps
    ensures forall y :: x <= y < x + s.length ==> PageOf(ps, y) == s.page && PlaceOf(ps, y) == s.offset + (y - x)
  {
    var page := PageOf(ps, x);
    var end := ps + Capacity(ps) * page;
    SegmentFits(ps, x, end - x);
    RealSegment(page, PlaceOf(ps, x), if end - x < n then end - x else n)
  }

  lemma {:induction false} SegmentFits(ps: PageSize, x: nat, m: int)
    requires m == ps + Capacity(ps) * PageOf(ps, x) - x
    ensures 0 < m && PlaceOf(ps, x) + m == ps
    ensures forall y :: x <= y < x + m ==> PageOf(ps, y) == PageOf(ps, x) && PlaceOf(ps, y) == PlaceOf(ps, x) + (y - x)
  {
    if ps <= x {
      var c, z := Capacity(ps), x - ps;
      assert z == z / c * c + z % c;
      assert c * (z / c + 1) == z / c * c + c;
      assert m == c - z % c;
      forall y | x <= y < x + m
        ensures PageOf(ps, y) == PageOf(ps, x) && PlaceOf(ps, y) == PlaceOf(ps, x) + (y - x)
      {
        DivStep(z, c, y - x);
      }
    }
  }

  // ---- What the pages hold

  /** The pages hold `s`, read as one string. */
  ghost predicate Holds(b: Bytes, p: seq<Address>, ps: PageSize, s: Bytes) {
    && 0 < |p| && |s| <= Extent(ps, |p| - 1)
    && forall x :: 0 <= x < |s| ==> PageOf(ps, x) < |p| && Real(p, ps, x) < |b| && b[Real(p, ps, x)] == s[x]
  }

  /** Appending a piece that lies within one page. */
  lemma {:induction false} HoldsMore(b: Bytes, b': Bytes, p: seq<Address>, ps: PageSize, s: Bytes, piece: Bytes)
    requires PagesApart(b, p, ps) && Holds(b, p, ps, s) && |s| + |piece| <= Extent(ps, |p| - 1)
    requires PageOf(ps, |s|) < |p| && Wrote(b, b', Real(p, ps, |s|), piece)
    requires forall y :: |s| <= y < |s| + |piece| ==> PageOf(ps, y) == PageOf(ps, |s|) && PlaceOf(ps, y) == PlaceOf(ps, |s|) + (y - |s|)
    ensures Holds(b', p, ps, s + piece)
  {
    var t := s + piece;
    forall x | 0 <= x < |t|
      ensures PageOf(ps, x) < |p| && Real(p, ps, x) < |b'| && b'[Real(p, ps, x)] == t[x]
    {
      if x < |s| {
        var d := Real(p, ps, x) - Real(p, ps, |s|);
        if 0 <= d < |piece| {
          assert Real(p, ps, |s| + d) == Real(p, ps, |s|) + d;
          RealInjective(b, p, ps, x, |s| + d);
        }
      } else {
        assert Real(p, ps, x) == Real(p, ps, |s|) + (x - |s|);
      }
    }
  }

  /** What the pages hold depends on the pages only. */
  lemma {:induction false} HoldsFrame(b: Bytes, b': Bytes, p: seq<Address>, ps: PageSize, s: Bytes)
    requires Holds(b, p, ps, s) && |b| <= |b'|
    requires forall k, i :: 0 <= k < |p| && p[k] <= i < p[k] + ps && i < |b| ==> b'[i] == b[i]
    ensures Holds(b', p, ps, s)
  {
    forall x | 0 <= x < |s|
      ensures b'[Real(p, ps, x)] == s[x]
    {
      assert p[PageOf(ps, x)] <= Real(p, ps, x) < p[PageOf(ps, x)] + ps;
    }
  }

  /** More pages hold what fewer did. */
  lemma {:induction false} HoldsLonger(b: Bytes, p: seq<Address>, q: Address, ps: PageSize, s: Bytes)
    requires Holds(b, p, ps, s)
    ensures Holds(b, p + [q], ps, s)
  {
    assert Extent(ps, |p|) == Extent(ps, |p| - 1) + Capacity(ps);
  }

  /** Pages beyond what is held may go. */
  lemma {:induction false} HoldsShorter(b: Bytes, p: seq<Address>, ps: PageSize, s: Bytes, n: nat)
    requires Holds(b, p, ps, s) && 0 < n <= |p| && |s| <= Extent(ps, n - 1)
    ensures Holds(b, p[..n], ps, s)
  {
    forall x | 0 <= x < |s|
      ensures PageOf(ps, x) < n
    {
      PageInExtent(ps, x, n - 1);
    }
  }

  // ---- The chain of overflow pages

  function HeadBytes(next: Address): (s: Bytes)
    ensures |s| == PAGE_OVERFLOW_DATA_OFFSET
  {
    OVERFLOW_MAGIC + U64(next)
  }

  ghost function NextPage(ov: seq<Address>, k: nat): Address
    requires k < |ov|
  {
    if k + 1 < |ov| then ov[k + 1] else NULL
  }

  ghost predicate HeadAt(b: Bytes, ov: seq<Address>, k: nat)
    requires k < |ov|
  {
    ov[k] + PAGE_OVERFLOW_DATA_OFFSET <= |b| && b[ov[k]..ov[k] + PAGE_OVERFLOW_DATA_OFFSET] == HeadBytes(NextPage(ov, k))
  }

  /** Every overflow page names the next, and the last names none. */
  ghost predicate Heads(b: Bytes, ov: seq<Address>) {
    forall k :: 0 <= k < |ov| ==> HeadAt(b, ov, k)
  }

  /** The string with the link to the first overflow page set. */
  ghost function Patch(s: Bytes, ov: seq<Address>): Bytes {
    if |s| < ENTRIES_OFFSET then s
    else s[..OVERFLOW_ADDRESS_OFFSET] + U64(FirstPage(ov)) + s[ENTRIES_OFFSET..]
  }

  /** The string a save has written so far, with the chain in order. */
  ghost predicate InProgress(b: Bytes, a: Address, ov: seq<Address>, ps: PageSize, s: Bytes) {
    Holds(b, [a] + ov, ps, s) && Heads(b, ov) && s == Patch(s, ov)
  }

  /** Writing data into a page leaves every head alone. */
  lemma {:induction false} HeadsKept(b: Bytes, b': Bytes, a: Address, ov: seq<Address>, ps: PageSize, x: nat, piece: Bytes)
    requires PagesApart(b, [a] + ov, ps) && Heads(b, ov) && PageOf(ps, x) <= |ov|
    requires Wrote(b, b', Real([a] + ov, ps, x), piece) && PlaceOf(ps, x) + |piece| <= ps
    ensures Heads(b', ov)
  {
    var p := [a] + ov;
    forall k | 0 <= k < |ov|
      ensures HeadAt(b', ov, k)
    {
      assert HeadAt(b, ov, k) && p[k + 1] == ov[k];
      ReadOther(b, b', Real(p, ps, x), piece, ov[k], ov[k] + PAGE_OVERFLOW_DATA_OFFSET);
    }
  }

  // ---- Linking a new overflow page

  /** A page with a head that names no page. */
  ghost predicate EndPage(b: Bytes, q: Address) {
    q + PAGE_OVERFLOW_DATA_OFFSET <= |b| && b[q..q + PAGE_OVERFLOW_DATA_OFFSET] == HeadBytes(NULL)
  }

  lemma {:induction false} HeadWritten(b: Bytes, b1: Bytes, b2: Bytes, q: Address)
    requires Wrote(b, b1, q, OVERFLOW_MAGIC) && Wrote(b1, b2, q + PAGE_OVERFLOW_NEXT_OFFSET, U64(NULL))
    ensures EndPage(b2, q)
  {
    hide U64;
    var h := b2[q..q + PAGE_OVERFLOW_DATA_OFFSET];
    assert h[..3] == OVERFLOW_MAGIC;
    assert h[3..] == U64(NULL);
    assert h == h[..3] + h[3..];
  }

  lemma {:induction false} HeadLinked(b: Bytes, b': Bytes, c: Address, next: Address, q: Address)
    requires c + PAGE_OVERFLOW_DATA_OFFSET <= |b| && b[c..c + PAGE_OVERFLOW_DATA_OFFSET] == HeadBytes(next)
    requires Wrote(b, b', c + PAGE_OVERFLOW_NEXT_OFFSET, U64(q))
    ensures c + PAGE_OVERFLOW_DATA_OFFSET <= |b'| && b'[c..c + PAGE_OVERFLOW_DATA_OFFSET] == HeadBytes(q)
  {
    hide U64;
    var g, h := b[c..c + PAGE_OVERFLOW_DATA_OFFSET], b'[c..c + PAGE_OVERFLOW_DATA_OFFSET];
    assert g[..3] == OVERFLOW_MAGIC;
    assert forall i :: 0 <= i < 3 ==> h[i] == g[i];
    assert h[..3] == OVERFLOW_MAGIC;
    assert h[3..] == U64(q);
    assert h == h[..3] + h[3..];
  }

  /** The first overflow page is named by the initial page. */
  lemma {:induction false} LinkFirst(b: Bytes, b': Bytes, a: Address, q: Address, ps: PageSize, s: Bytes)
    requires PagesApart(b, [a, q], ps) && InProgress(b, a, [], ps, s) && ENTRIES_OFFSET <= |s| && EndPage(b, q)
    requires Wrote(b, b', a + OVERFLOW_ADDRESS_OFFSET, U64(q))
    ensures InProgress(b', a, [q], ps, Patch(s, [q]))
  {
    hide U64, HeadBytes, Holds, PagesApart, Patch;
    var t := Patch(s, [q]);
    assert [a] + [] == [a] && [a] + [q] == [a, q];
    LinkInFirst(b, b', a, q, ps, s);
    HoldsLonger(b', [a], q, ps, t);
    PatchTwice(s, [q], [q]);
    TwoApart(b, a, q, ps);
    ReadOther(b, b', a + OVERFLOW_ADDRESS_OFFSET, U64(q), q, q + PAGE_OVERFLOW_DATA_OFFSET);
    assert HeadAt(b', [q], 0);
  }

  lemma {:induction false} TwoApart(b: Bytes, a: Address, q: Address, ps: PageSize)
    requires PagesApart(b, [a, q], ps)
    ensures a + ps <= |b| && q + ps <= |b| && (a + ps <= q || q + ps <= a)
  {
    assert [a, q][0] == a && [a, q][1] == q;
  }

  /** The link lies in the first page, and is all of the string that changes. */
  lemma {:induction false} LinkInFirst(b: Bytes, b': Bytes, a: Address, q: Address, ps: PageSize, s: Bytes)
    requires Holds(b, [a], ps, s) && ENTRIES_OFFSET <= |s| && Wrote(b, b', a + OVERFLOW_ADDRESS_OFFSET, U64(q))
    ensures Holds(b', [a], ps, Patch(s, [q]))
  {
    hide U64;
    var t := Patch(s, [q]);
    forall x | 0 <= x < |t|
      ensures PageOf(ps, x) == 0 && Real([a], ps, x) < |b'| && b'[Real([a], ps, x)] == t[x]
    {
      PageInExtent(ps, x, 0);
      assert Real([a], ps, x) == a + x;
    }
  }

  /** A further overflow page is named by the one before it. */
  lemma {:induction false} LinkNext(b: Bytes, b': Bytes, a: Address, ov: seq<Address>, q: Address, ps: PageSize, s: Bytes)
    requires PagesApart(b, [a] + ov + [q], ps) && ov != [] && InProgress(b, a, ov, ps, s) && EndPage(b, q)
    requires Wrote(b, b', ov[|ov| - 1] + PAGE_OVERFLOW_NEXT_OFFSET, U64(q))
    ensures InProgress(b', a, ov + [q], ps, s)
  {
    hide U64, HeadBytes;
    var p, n := [a] + ov, |ov| - 1;
    var last := ov[n];
    assert p + [q] == [a] + (ov + [q]);
    assert (p + [q])[n + 1] == last && (p + [q])[n + 2] == q;
    assert forall k :: 0 <= k < |p| ==> (p + [q])[k] == p[k];
    forall x | 0 <= x < |s|
      ensures b'[Real(p, ps, x)] == s[x]
    {
      assert PageOf(ps, x) != n + 1 ==> Real(p, ps, x) < last || last + ps <= Real(p, ps, x);
    }
    HoldsLonger(b', p, q, ps, s);
    NextHeads(b, b', ov, q, p + [q], ps);
  }

  lemma {:induction false} NextHeads(b: Bytes, b': Bytes, ov: seq<Address>, q: Address, p: seq<Address>, ps: PageSize)
    requires PagesApart(b, p, ps) && ov != [] && |p| == |ov| + 2 && p[1..] == ov + [q] && Heads(b, ov) && EndPage(b, q)
    requires Wrote(b, b', ov[|ov| - 1] + PAGE_OVERFLOW_NEXT_OFFSET, U64(q))
    ensures Heads(b', ov + [q])
  {
    hide U64, HeadBytes;
    var n := |ov| - 1;
    var last := ov[n];
    forall k | 0 <= k < |ov| + 1
      ensures HeadAt(b', ov + [q], k)
    {
      var c := (ov + [q])[k];
      assert p[k + 1] == c && p[n + 1] == last;
      if k == n {
        assert HeadAt(b, ov, n);
        HeadLinked(b, b', last, NULL, q);
      } else {
        assert k < n ==> HeadAt(b, ov, k);
        ReadOther(b, b', last + PAGE_OVERFLOW_NEXT_OFFSET, U64(q), c, c + PAGE_OVERFLOW_DATA_OFFSET);
      }
    }
  }

  lemma {:induction false} PatchAppend(s: Bytes, t: Bytes, ov: seq<Address>)
    requires ENTRIES_OFFSET <= |s| && s == Patch(s, ov)
    ensures s + t == Patch(s + t, ov)
  {
    hide U64;
    assert (s + t)[..OVERFLOW_ADDRESS_OFFSET] == s[..OVERFLOW_ADDRESS_OFFSET];
    assert (s + t)[ENTRIES_OFFSET..] == s[ENTRIES_OFFSET..] + t;
    assert s + t == s[..OVERFLOW_ADDRESS_OFFSET] + U64(FirstPage(ov)) + s[ENTRIES_OFFSET..] + t;
  }

  lemma {:induction false} PatchTwice(s: Bytes, ov: seq<Address>, ov': seq<Address>)
    ensures Patch(Patch(s, ov), ov') == Patch(s, ov')
    ensures |Patch(s, ov)| == |s|
  {
    hide U64;
  }

  // ---- Cutting the chain short

  lemma {:induction false} CutHeads(b: Bytes, b': Bytes, a: Address, ov: seq<Address>, n: nat, ps: PageSize)
    requires 0 < n <= |ov| && (forall k :: 0 <= k < n ==> HeadAt(b, ov, k))
    requires PagesApart(b, [a] + ov[..n], ps) && Wrote(b, b', ov[n - 1] + PAGE_OVERFLOW_NEXT_OFFSET, U64(NULL))
    ensures Heads(b', ov[..n])
  {
    hide U64, HeadBytes;
    var p, last := [a] + ov[..n], ov[n - 1];
    assert p[n] == last;
    forall k | 0 <= k < n
      ensures HeadAt(b', ov[..n], k)
    {
      assert HeadAt(b, ov, k) && p[k + 1] == ov[k];
      if k == n - 1 {
        HeadLinked(b, b', last, NextPage(ov, k), NULL);
      } else {
        ReadOther(b, b', last + PAGE_OVERFLOW_NEXT_OFFSET, U64(NULL), ov[k], ov[k] + PAGE_OVERFLOW_DATA_OFFSET);
      }
    }
  }

  /** Rewriting a link changes nothing else of the string. */
  lemma {:induction false} CutString(b: Bytes, b': Bytes, a: Address, ov: seq<Address>, ps: PageSize, s: Bytes)
    requires Holds(b, [a] + ov, ps, s) && PagesApart(b, [a] + ov, ps) && ov != []
    requires Wrote(b, b', ov[|ov| - 1] + PAGE_OVERFLOW_NEXT_OFFSET, U64(NULL))
    ensures Holds(b', [a] + ov, ps, s)
  {
    hide U64;
    var p, n := [a] + ov, |ov|;
    assert p[n] == ov[n - 1];
    forall x | 0 <= x < |s|
      ensures b'[Real(p, ps, x)] == s[x]
    {
      assert PageOf(ps, x) != n ==> Real(p, ps, x) < p[n] || p[n] + ps <= Real(p, ps, x);
    }
  }

  lemma {:induction false} CutFirst(b: Bytes, b': Bytes, a: Address, ps: PageSize, s: Bytes)
    requires Holds(b, [a], ps, s) && PagesApart(b, [a], ps) && ENTRIES_OFFSET <= |s|
    requires Wrote(b, b', a + OVERFLOW_ADDRESS_OFFSET, U64(NULL))
    ensures Holds(b', [a], ps, Patch(s, []))
  {
    hide U64;
    var t := Patch(s, []);
    assert [a][0] == a;
    forall x | 0 <= x < |t|
      ensures PageOf(ps, x) == 0 && Real([a], ps, x) < |b'| && b'[Real([a], ps, x)] == t[x]
    {
      PageInExtent(ps, x, 0);
      assert Real([a], ps, x) == a + x;
    }
  }
}
