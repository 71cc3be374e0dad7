/** Virtual memories as lists of buckets of one memory. */
module Buckets {
  import opened Types
  import opened Layout
  import opened Memories
  import opened Paging

  const MAX_NUM_MEMORIES: nat := 255
  const MAX_NUM_BUCKETS: nat := 32768
  const UNALLOCATED_BUCKET_MARKER: nat := 255
  const MANAGER_HEADER_SIZE: nat := 2080

  // ---- Who owns each bucket

  /** The buckets of a memory, in the order they were taken. */
  function BucketsOf(owner: seq<nat>, id: nat): (l: seq<nat>)
    ensures forall k :: 0 <= k < |l| ==> l[k] < |owner| && owner[l[k]] == id
    ensures forall j, k :: 0 <= j < k < |l| ==> l[j] < l[k]
    ensures |l| <= |owner|
  {
    if owner == [] then []
    else
      var n := |owner| - 1;
      BucketsOf(owner[..n], id) + if owner[n] == id then [n] else []
  }

  /** The lists hold every bucket once. */
  lemma {:induction false} BucketListed(owner: seq<nat>, id: nat, b: nat)
    requires b < |owner|
    ensures b in BucketsOf(owner, id) <==> owner[b] == id
  {
    if owner[b] == id {
      ListedAt(owner, id, b);
    }
  }

  lemma {:induction false} ListedAt(owner: seq<nat>, id: nat, b: nat)
    requires b < |owner| && owner[b] == id
    ensures b in BucketsOf(owner, id)
  {
    var n := |owner| - 1;
    if b < n {
      ListedAt(owner[..n], id, b);
      assert forall x :: x in BucketsOf(owner[..n], id) ==> x in BucketsOf(owner, id);
    } else {
      var l := BucketsOf(owner, id);
      assert l[|l| - 1] == b;
    }
  }

  lemma {:induction false} OneMoreBucket(owner: seq<nat>, id: nat, other: nat)
    ensures BucketsOf(owner + [id], other) == BucketsOf(owner, other) + if other == id then [|owner|] else []
  {
    assert (owner + [id])[..|owner|] == owner;
  }

  // ---- Where a byte of a virtual memory lives

  function BucketAddress(b: nat, size: nat): nat {
    WASM_PAGE_SIZE + b * size
  }

  lemma {:induction false} BucketsApart(a: nat, b: nat, size: nat)
    requires a < b
    ensures BucketAddress(a, size) + size <= BucketAddress(b, size)
  {
    NonzeroTimes(b - a, size);
    assert b * size - a * size == (b - a) * size;
  }

  /** The bucket of a virtual memory that byte `x` is in, and its place there. */
  function IndexOf(x: nat, size: nat): nat
    requires 0 < size
  {
    x / size
  }

  function OffsetOf(x: nat, size: nat): (r: nat)
    requires 0 < size
    ensures r < size
  {
    x % size
  }

  function Real(l: seq<nat>, size: nat, x: nat): nat
    requires 0 < size && IndexOf(x, size) < |l|
  {
    BucketAddress(l[IndexOf(x, size)], size) + OffsetOf(x, size)
  }

  lemma {:induction false} InList(n: nat, size: nat, x: nat)
    requires 0 < size
    ensures x < n * size <==> IndexOf(x, size) < n
  {
    DivBelow(x, size, n);
  }

  /** The buckets of `l` hold the flat memory `f`. */
  ghost predicate Mirrors(b: Bytes, l: seq<nat>, size: nat, f: Bytes)
    requires 0 < size
  {
    && |f| == |l| * size
    && forall x :: 0 <= x < |f| ==> IndexOf(x, size) < |l| && Real(l, size, x) < |b| && b[Real(l, size, x)] == f[x]
  }

  /** Different bytes live at different places. */
  lemma {:induction false} RealApart(l: seq<nat>, size: nat, x: nat, y: nat)
    requires 0 < size && IndexOf(x, size) < |l| && IndexOf(y, size) < |l| && x != y
    requires forall j, k :: 0 <= j < k < |l| ==> l[j] < l[k]
    ensures Real(l, size, x) != Real(l, size, y)
  {
    var i, j := IndexOf(x, size), IndexOf(y, size);
    assert x == i * size + OffsetOf(x, size) && y == j * size + OffsetOf(y, size);
    if l[i] < l[j] {
      BucketsApart(l[i], l[j], size);
    } else if l[j] < l[i] {
      BucketsApart(l[j], l[i], size);
    }
  }

  /** Writing a piece within one bucket of the list. */
  lemma {:induction false} WroteMine(b: Bytes, b': Bytes, l: seq<nat>, size: nat, f: Bytes, x: nat, piece: Bytes)
    requires 0 < size && Mirrors(b, l, size, f) && (forall j, k :: 0 <= j < k < |l| ==> l[j] < l[k])
    requires IndexOf(x, size) < |l| && OffsetOf(x, size) + |piece| <= size && x + |piece| <= |f|
    requires Wrote(b, b', Real(l, size, x), piece)
    ensures Mirrors(b', l, size, f[..x] + piece + f[x + |piece|..])
  {
    var g := f[..x] + piece + f[x + |piece|..];
    forall y | 0 <= y < |g|
      ensures IndexOf(y, size) < |l| && Real(l, size, y) < |b'| && b'[Real(l, size, y)] == g[y]
    {
      if x <= y < x + |piece| {
        DivStep(x, size, y - x);
        assert Real(l, size, y) == Real(l, size, x) + (y - x);
      } else {
        assert g[y] == f[y];
        var d := Real(l, size, y) - Real(l, size, x);
        if 0 <= d < |piece| {
          DivStep(x, size, d);
          assert Real(l, size, x + d) == Real(l, size, y);
          RealApart(l, size, x + d, y);
        }
      }
    }
  }

  /** Writing within a bucket that is not in the list, or in front of all buckets. */
  lemma {:induction false} WroteElsewhere(b: Bytes, b': Bytes, l: seq<nat>, size: nat, f: Bytes, at: nat, piece: Bytes)
    requires 0 < size && Mirrors(b, l, size, f) && Wrote(b, b', at, piece)
    requires at + |piece| <= WASM_PAGE_SIZE || exists k :: k !in l && BucketAddress(k, size) <= at && at + |piece| <= BucketAddress(k, size) + size
    ensures Mirrors(b', l, size, f)
  {
    forall y | 0 <= y < |f|
      ensures Real(l, size, y) < |b'| && b'[Real(l, size, y)] == f[y]
    {
      var i := l[IndexOf(y, size)];
      assert BucketAddress(i, size) <= Real(l, size, y) < BucketAddress(i, size) + size;
      if WASM_PAGE_SIZE < at + |piece| {
        var k :| k !in l && BucketAddress(k, size) <= at && at + |piece| <= BucketAddress(k, size) + size;
        assert i in l;
        if i < k {
          BucketsApart(i, k, size);
        } else {
          BucketsApart(k, i, size);
        }
      } else {
        NonzeroTimes(i, size);
      }
    }
  }

  /** A list with one bucket more holds more. */
  lemma {:induction false} MirrorsMore(b: Bytes, l: seq<nat>, size: nat, f: Bytes, k: nat)
    requires 0 < size && Mirrors(b, l, size, f) && BucketAddress(k, size) + size <= |b|
    ensures Mirrors(b, l + [k], size, f + b[BucketAddress(k, size)..BucketAddress(k, size) + size])
  {
    hide BucketAddress;
    var m, g := l + [k], f + b[BucketAddress(k, size)..BucketAddress(k, size) + size];
    TimesMore(|l|, size);
    forall x | 0 <= x < |g|
      ensures IndexOf(x, size) < |m| && Real(m, size, x) < |b| && b[Real(m, size, x)] == g[x]
    {
      if x < |f| {
        assert m[IndexOf(x, size)] == l[IndexOf(x, size)];
      } else {
        DivUnique(x, size, |l|, x - |f|);
        assert Real(m, size, x) == BucketAddress(k, size) + (x - |f|);
      }
    }
  }

  lemma {:induction false} TimesMore(n: nat, size: nat)
    ensures (n + 1) * size == n * size + size
  {
  }

  lemma {:induction false} MirrorsGrown(b: Bytes, b': Bytes, l: seq<nat>, size: nat, f: Bytes)
    requires 0 < size && Mirrors(b, l, size, f) && b <= b'
    ensures Mirrors(b', l, size, f)
  {
  }

  // ---- The cache

  /** The last bucket touched: where it is in the virtual memory and in the real one. */
  datatype Cache = Cache(start: nat, length: nat, address: nat)

  /** The cache for bucket `k` of a list. */
  function CacheFor(l: seq<nat>, size: nat, k: nat): Cache
    requires k < |l|
  {
    Cache(k * size, size, BucketAddress(l[k], size))
  }

  const COLD := Cache(0, 0, 0)

  /** The cache after an access that was not a hit: it has the bucket of the last byte. */
  function Touched(l: seq<nat>, size: nat, off: nat, n: nat, c: Cache): Cache
    requires 0 < size
  {
    if n == 0 || |l| <= IndexOf(off + n - 1, size) then c else CacheFor(l, size, IndexOf(off + n - 1, size))
  }

  /** The real address of a stretch, if the cached bucket has all of it. */
  function Cached(c: Cache, off: nat, n: nat): Option<nat> {
    if c.start <= off && off + n <= c.start + c.length then Some(c.address + (off - c.start)) else None
  }

  /** The stretch lies in the cached bucket. */
  predicate Covers(c: Cache, off: nat, n: nat) {
    c.start <= off && off + n <= c.start + c.length
  }

  /** The cache is cold, or holds a bucket of the list. */
  ghost predicate CacheGood(c: Cache, l: seq<nat>, size: nat)
    requires 0 < size
  {
    c == COLD || (OffsetOf(c.start, size) == 0 && c.length == size && IndexOf(c.start, size) < |l| && c.address == BucketAddress(l[IndexOf(c.start, size)], size))
  }

  /** A hit gives what the list gives, and stays in that bucket; a cold cache is hit by nothing but nothing. */
  lemma {:induction false} HitIsReal(c: Cache, l: seq<nat>, size: nat, off: nat, n: nat)
    requires 0 < size && CacheGood(c, l, size) && Cached(c, off, n).Some? && 0 < n
    ensures IndexOf(off, size) < |l| && Cached(c, off, n).value == Real(l, size, off) && OffsetOf(off, size) + n <= size
    ensures off + n <= |l| * size
  {
    var q := IndexOf(c.start, size);
    assert c.start == q * size;
    DivUnique(off, size, q, off - c.start);
    NonzeroTimes(|l| - q - 1, size);
    assert |l| * size == q * size + size + (|l| - q - 1) * size;
  }

  /** Lists only grow at their end, which no cache notices. */
  lemma {:induction false} CacheStays(c: Cache, l: seq<nat>, l': seq<nat>, size: nat)
    requires 0 < size && CacheGood(c, l, size) && l <= l'
    ensures CacheGood(c, l', size)
  {
  }
}
