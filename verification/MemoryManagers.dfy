/** The memory manager: up to 255 memories in the buckets of one memory. */
module MemoryManagers {
  import opened Types
  import opened Layout
  import opened Memories
  import opened Paging
  import opened Buckets

  /** The buckets needed for a number of pages. */
  function Needed(pages: nat, bucketPages: nat): (n: nat)
    requires 0 < bucketPages
    ensures pages <= n * bucketPages && (0 < n ==> (n - 1) * bucketPages < pages)
  {
    var n := (pages + bucketPages - 1) / bucketPages;
    NeededEnough(pages, bucketPages);
    n
  }

  lemma {:induction false} NeededEnough(pages: nat, c: nat)
    requires 0 < c
    ensures var n := (pages + c - 1) / c; pages <= n * c && (0 < n ==> (n - 1) * c < pages)
  {
    var z := pages + c - 1;
    var n := z / c;
    assert z == n * c + z % c;
    assert (n - 1) * c == n * c - c;
  }

  lemma {:induction false} NeededMore(a: nat, b: nat, c: nat)
    requires 0 < c && a <= b
    ensures Needed(a, c) <= Needed(b, c)
  {
    var m, n := Needed(a, c), Needed(b, c);
    NonzeroTimes(m - 1 - n, c);
    assert (m - 1) * c - n * c == (m - 1 - n) * c;
  }

  function ManagerHeader(taken: nat, bucketPages: nat, sizes: seq<nat>): (s: Bytes)
    ensures |s| == 40 + 8 * |sizes|
  {
    [77, 71, 82, 1] + U16(taken) + U16(bucketPages) + seq(32, _ => 0) + ChildBytes(sizes)
  }

  lemma {:induction false} ManagerHeaderIsBytes(taken: nat, bucketPages: nat, sizes: seq<nat>)
    requires taken < 0x1_0000 && bucketPages < 0x1_0000 && forall i :: 0 <= i < |sizes| ==> sizes[i] < ADDRESS_SPACE
    ensures AllBytes(ManagerHeader(taken, bucketPages, sizes))
  {
    hide U16, ChildBytes;
    FieldsFit(taken);
    FieldsFit(bucketPages);
    SizesAreBytes(sizes);
    var h := [77, 71, 82, 1];
    BytesJoin(h, U16(taken));
    BytesJoin(h + U16(taken), U16(bucketPages));
    BytesJoin(h + U16(taken) + U16(bucketPages), seq(32, _ => 0));
    BytesJoin(h + U16(taken) + U16(bucketPages) + seq(32, _ => 0), ChildBytes(sizes));
  }

  lemma {:induction false} SizesAreBytes(sizes: seq<nat>)
    requires forall i :: 0 <= i < |sizes| ==> sizes[i] < ADDRESS_SPACE
    ensures AllBytes(ChildBytes(sizes))
  {
    hide U64;
    if sizes != [] {
      var n := |sizes| - 1;
      SizesAreBytes(sizes[..n]);
      FieldsFit(sizes[n]);
      BytesJoin(ChildBytes(sizes[..n]), U64(sizes[n]));
    }
  }

  function TableOf(owner: seq<nat>): (t: Bytes)
    ensures |t| == MAX_NUM_BUCKETS
    ensures forall k :: 0 <= k < MAX_NUM_BUCKETS ==> t[k] == if k < |owner| then owner[k] else UNALLOCATED_BUCKET_MARKER
  {
    seq(MAX_NUM_BUCKETS, k requires 0 <= k => if k < |owner| then owner[k] else UNALLOCATED_BUCKET_MARKER)
  }

  const TABLE_END := MANAGER_HEADER_SIZE + MAX_NUM_BUCKETS

  /** The table says who owns each bucket. */
  ghost predicate Tabled(b: Bytes, owner: seq<nat>) {
    TABLE_END <= |b| && b[MANAGER_HEADER_SIZE..TABLE_END] == TableOf(owner)
  }

  /** Each memory has the list of its buckets. */
  ghost predicate Lists(buckets: seq<seq<nat>>, owner: seq<nat>) {
    |buckets| == MAX_NUM_MEMORIES && forall id :: 0 <= id < MAX_NUM_MEMORIES ==> buckets[id] == BucketsOf(owner, id)
  }

  ghost predicate Listed(buckets: seq<seq<nat>>, owner: seq<nat>, sizes: seq<nat>, bucketPages: nat)
    requires 0 < bucketPages
  {
    && Lists(buckets, owner) && |sizes| == MAX_NUM_MEMORIES
    && (forall k :: 0 <= k < |owner| ==> owner[k] < MAX_NUM_MEMORIES)
    && (forall id :: 0 <= id < MAX_NUM_MEMORIES ==> |buckets[id]| == Needed(sizes[id], bucketPages))
  }

  ghost predicate AllMirrored(b: Bytes, buckets: seq<seq<nat>>, size: nat, flats: seq<Bytes>)
    requires 0 < size
  {
    |flats| == |buckets| && forall id :: 0 <= id < |buckets| ==> Mirrors(b, buckets[id], size, flats[id])
  }

  /** Beyond the buckets taken, a memory that was empty at first holds nothing. */
  ghost predicate Zeroed(b: Bytes, from: nat) {
    forall i :: from <= i < |b| ==> b[i] == 0
  }

  // ---- One write

  ghost function Spliced(f: Bytes, x: nat, piece: Bytes): Bytes
    requires x + |piece| <= |f|
  {
    f[..x] + piece + f[x + |piece|..]
  }

  /** A write within one bucket of one memory: that memory changes there, the others not at all. */
  lemma {:induction false} WroteOne(b: Bytes, b': Bytes, buckets: seq<seq<nat>>, owner: seq<nat>, size: nat, flats: seq<Bytes>, id: nat, x: nat, piece: Bytes)
    requires 0 < size && Lists(buckets, owner) && id < MAX_NUM_MEMORIES && AllMirrored(b, buckets, size, flats)
    requires IndexOf(x, size) < |buckets[id]| && OffsetOf(x, size) + |piece| <= size && x + |piece| <= |flats[id]|
    requires Wrote(b, b', Buckets.Real(buckets[id], size, x), piece)
    ensures AllMirrored(b', buckets, size, flats[id := Spliced(flats[id], x, piece)])
  {
    hide Mirrors, BucketsOf, BucketAddress;
    var k, at := buckets[id][IndexOf(x, size)], Buckets.Real(buckets[id], size, x);
    var flats' := flats[id := Spliced(flats[id], x, piece)];
    BucketHome(owner, buckets[id], id, IndexOf(x, size));
    forall j | 0 <= j < |buckets|
      ensures Mirrors(b', buckets[j], size, flats'[j])
    {
      if j == id {
        BucketOrder(owner, id);
        WroteMine(b, b', buckets[id], size, flats[id], x, piece);
      } else {
        BucketListed(owner, j, k);
        WroteElsewhere(b, b', buckets[j], size, flats[j], at, piece);
      }
    }
  }

  lemma {:induction false} BucketOrder(owner: seq<nat>, id: nat)
    ensures var l := BucketsOf(owner, id); forall j, k :: 0 <= j < k < |l| ==> l[j] < l[k]
  {
  }

  lemma {:induction false} BucketHome(owner: seq<nat>, l: seq<nat>, id: nat, i: nat)
    requires l == BucketsOf(owner, id) && i < |l|
    ensures l[i] < |owner| && owner[l[i]] == id
  {
  }

  /** A write in front of the buckets changes no memory. */
  lemma {:induction false} WroteFront(b: Bytes, b': Bytes, buckets: seq<seq<nat>>, size: nat, flats: seq<Bytes>, at: nat, piece: Bytes)
    requires 0 < size && AllMirrored(b, buckets, size, flats) && Wrote(b, b', at, piece) && at + |piece| <= WASM_PAGE_SIZE
    ensures AllMirrored(b', buckets, size, flats)
  {
    hide Mirrors;
    forall j | 0 <= j < |buckets|
      ensures Mirrors(b', buckets[j], size, flats[j])
    {
      WroteElsewhere(b, b', buckets[j], size, flats[j], at, piece);
    }
  }

  /** A write within the buckets taken leaves the bookkeeping page and what lies beyond alone. */
  lemma {:induction false} WroteInside(b: Bytes, b': Bytes, owner: seq<nat>, at: nat, piece: Bytes, end: nat)
    requires Tabled(b, owner) && Wrote(b, b', at, piece) && WASM_PAGE_SIZE <= at && at + |piece| <= end <= |b|
    ensures Tabled(b', owner) && b'[..MANAGER_HEADER_SIZE] == b[..MANAGER_HEADER_SIZE]
    ensures Zeroed(b, end) ==> Zeroed(b', end)
  {
    hide TableOf;
    ReadOther(b, b', at, piece, 0, MANAGER_HEADER_SIZE);
    ReadOther(b, b', at, piece, MANAGER_HEADER_SIZE, TABLE_END);
  }

  // ---- Taking buckets

  /** The bucket after the last is taken by a memory. */
  lemma {:induction false} BucketTaken(b: Bytes, b': Bytes, owner: seq<nat>, id: nat)
    requires Tabled(b, owner) && |owner| < MAX_NUM_BUCKETS && id < MAX_NUM_MEMORIES
    requires Wrote(b, b', MANAGER_HEADER_SIZE + |owner|, [id])
    ensures Tabled(b', owner + [id]) && b'[..MANAGER_HEADER_SIZE] == b[..MANAGER_HEADER_SIZE]
  {
    ReadOther(b, b', MANAGER_HEADER_SIZE + |owner|, [id], 0, MANAGER_HEADER_SIZE);
    var t, t' := b[MANAGER_HEADER_SIZE..TABLE_END], b'[MANAGER_HEADER_SIZE..TABLE_END];
    forall k | 0 <= k < MAX_NUM_BUCKETS
      ensures t'[k] == TableOf(owner + [id])[k]
    {
      assert t'[k] == if k == |owner| then id else t[k];
    }
  }

  /** `n` buckets in a row, starting with bucket `k`. */
  function Row(k: nat, n: nat): (l: seq<nat>)
    ensures |l| == n
  {
    if n == 0 then [] else Row(k, n - 1) + [k + n - 1]
  }

  /** What `n` buckets from bucket `k` on hold. */
  ghost function Stretch(b: Bytes, k: nat, n: nat, size: nat): Bytes {
    if BucketAddress(k + n, size) <= |b| && BucketAddress(k, size) <= BucketAddress(k + n, size)
    then b[BucketAddress(k, size)..BucketAddress(k + n, size)] else []
  }

  lemma {:induction false} MirrorsRow(b: Bytes, l: seq<nat>, size: nat, f: Bytes, k: nat, n: nat)
    requires 0 < size && Mirrors(b, l, size, f) && BucketAddress(k + n, size) <= |b|
    ensures Mirrors(b, l + Row(k, n), size, f + Stretch(b, k, n, size))
    decreases n
  {
    hide Mirrors, BucketAddress, Stretch;
    if n == 0 {
      NoStretch(b, k, size);
      assert Row(k, n) == [];
      assert l + Row(k, n) == l && f + Stretch(b, k, n, size) == f;
    } else {
      BucketsApart(k + n - 1, k + n, size);
      StretchMore(b, k, n - 1, size);
      MirrorsRow(b, l, size, f, k, n - 1);
      MirrorsMore(b, l + Row(k, n - 1), size, f + Stretch(b, k, n - 1, size), k + n - 1);
      assert l + Row(k, n) == l + Row(k, n - 1) + [k + n - 1];
      assert f + Stretch(b, k, n, size) == f + Stretch(b, k, n - 1, size) + b[BucketAddress(k + n - 1, size)..BucketAddress(k + n - 1, size) + size];
    }
  }

  lemma {:induction false} NoStretch(b: Bytes, k: nat, size: nat)
    requires BucketAddress(k, size) <= |b|
    ensures Stretch(b, k, 0, size) == []
  {
  }

  lemma {:induction false} StretchMore(b: Bytes, k: nat, n: nat, size: nat)
    requires BucketAddress(k + n + 1, size) <= |b|
    ensures BucketAddress(k + n, size) + size == BucketAddress(k + n + 1, size)
    ensures Stretch(b, k, n + 1, size) == Stretch(b, k, n, size) + b[BucketAddress(k + n, size)..BucketAddress(k + n, size) + size]
  {
    TimesMore(k + n, size);
    NonzeroTimes(n, size);
    assert (k + n) * size - k * size == n * size;
  }

  lemma {:induction false} AddressInside(k: nat, n: nat, size: nat)
    requires k < n
    ensures WASM_PAGE_SIZE <= BucketAddress(k, size) && BucketAddress(k, size) + size <= BucketAddress(n, size)
  {
    BucketsApart(k, n, size);
    NonzeroTimes(k, size);
  }

  class MemoryManager {
    const memory: Memory
    const bucketPages: nat
    var allocatedBuckets: nat
    var sizes: seq<nat>
    var buckets: seq<seq<nat>>

    ghost var owner: seq<nat>
    /** What each memory holds, up to the end of its last bucket. */
    ghost var flats: seq<Bytes>
    ghost const clean: bool

    function BucketBytes(): (n: nat)
      ensures 0 < bucketPages ==> 0 < n
    {
      bucketPages * WASM_PAGE_SIZE
    }

    ghost predicate Valid()
      reads this, memory
    {
      && 0 < bucketPages < 0x1_0000 && memory.Valid() && AllBytes(memory.bytes)
      && allocatedBuckets == |owner| <= MAX_NUM_BUCKETS
      && Listed(buckets, owner, sizes, bucketPages)
      && AllMirrored(memory.bytes, buckets, BucketBytes(), flats)
      && BucketAddress(allocatedBuckets, BucketBytes()) <= |memory.bytes|
      && memory.bytes[..MANAGER_HEADER_SIZE] == ManagerHeader(allocatedBuckets, bucketPages, sizes)
      && Tabled(memory.bytes, owner)
      && (clean ==> Zeroed(memory.bytes, BucketAddress(allocatedBuckets, BucketBytes())))
    }

    constructor (memory: Memory, bucketPages: nat)
      requires 0 < bucketPages < 0x1_0000 && memory.Valid() && AllBytes(memory.bytes)
      modifies memory
      ensures Valid() && allocatedBuckets == 0 && this.memory == memory && this.bucketPages == bucketPages
      ensures sizes == seq(MAX_NUM_MEMORIES, _ => 0) && flats == seq(MAX_NUM_MEMORIES, _ => [])
      ensures clean <==> old(memory.bytes) == []
    {
      hide ManagerHeader, Wrote, AllBytes;
      this.memory, this.bucketPages, clean := memory, bucketPages, memory.bytes == [];
      allocatedBuckets, owner := 0, [];
      sizes, buckets, flats := seq(MAX_NUM_MEMORIES, _ => 0), seq(MAX_NUM_MEMORIES, _ => []), seq(MAX_NUM_MEMORIES, _ => []);
      new;
      ghost var b := memory.bytes;
      var h := ManagerHeader(0, bucketPages, sizes);
      ManagerHeaderIsBytes(0, bucketPages, sizes);
      memory.Write(0, h);
      StillBytes(b, memory.bytes, 0, h);
      ghost var b1 := memory.bytes;
      var marks := seq(MAX_NUM_BUCKETS, _ => UNALLOCATED_BUCKET_MARKER);
      MarksAreBytes(marks);
      memory.Write(MANAGER_HEADER_SIZE, marks);
      StillBytes(b1, memory.bytes, MANAGER_HEADER_SIZE, marks);
      FirstPage(b, b1, memory.bytes, h, marks);
    }

    /** A manager found in memory: the lists of buckets come back in the order they had. */
    constructor Load(memory: Memory, ghost was: MemoryManager)
      requires was.Valid() && was.memory == memory
      ensures Valid() && this.memory == memory && bucketPages == was.bucketPages && clean == was.clean
      ensures allocatedBuckets == was.allocatedBuckets && sizes == was.sizes && buckets == was.buckets && flats == was.flats
    {
      hide BucketsOf, Needed, AllMirrored, Zeroed, BucketAddress, ManagerHeader, TableOf, AllBytes;
      var h := memory.Read(0, MANAGER_HEADER_SIZE);
      HeaderParts(was.allocatedBuckets, was.bucketPages, was.sizes);
      assert h[..3] == [77, 71, 82] && h[3] == 1;
      this.memory, allocatedBuckets, bucketPages := memory, FromLE(h[4..6]), FromLE(h[6..8]);
      var pages := ReadSizes(h[40..], was.sizes);
      var t := memory.Read(MANAGER_HEADER_SIZE, MAX_NUM_BUCKETS);
      var lists := ReadTable(t, was.owner);
      assert lists == was.buckets;
      sizes, buckets := pages, lists;
      owner, flats, clean := was.owner, was.flats, was.clean;
    }

    lemma MarksAreBytes(marks: Bytes)
      requires forall i :: 0 <= i < |marks| ==> marks[i] == UNALLOCATED_BUCKET_MARKER
      ensures AllBytes(marks)
    {
    }

    /** A fresh bookkeeping page. */
    lemma FirstPage(b: Bytes, b1: Bytes, b2: Bytes, h: Bytes, marks: Bytes)
      requires |b| % WASM_PAGE_SIZE == 0 && |b2| % WASM_PAGE_SIZE == 0 && |h| == MANAGER_HEADER_SIZE
      requires marks == seq(MAX_NUM_BUCKETS, _ => UNALLOCATED_BUCKET_MARKER)
      requires Wrote(b, b1, 0, h) && Wrote(b1, b2, MANAGER_HEADER_SIZE, marks)
      ensures WASM_PAGE_SIZE <= |b2| && b2[..MANAGER_HEADER_SIZE] == h && Tabled(b2, [])
      ensures b == [] ==> Zeroed(b2, WASM_PAGE_SIZE)
    {
      ReadBack(b, b1, 0, h);
      ReadOther(b1, b2, MANAGER_HEADER_SIZE, marks, 0, MANAGER_HEADER_SIZE);
      ReadBack(b1, b2, MANAGER_HEADER_SIZE, marks);
      assert marks == TableOf([]);
    }

    /** The size of a memory, in pages. */
    function MemorySize(id: nat): nat
      requires id < |sizes|
      reads this
    {
      sizes[id]
    }

    /** Writes a piece within one bucket. */
    method WritePiece(id: nat, at: nat, piece: Bytes, ghost x: nat)
      requires Valid() && id < MAX_NUM_MEMORIES
      requires IndexOf(x, BucketBytes()) < |buckets[id]| && OffsetOf(x, BucketBytes()) + |piece| <= BucketBytes() && x + |piece| <= |flats[id]|
      requires at == Buckets.Real(buckets[id], BucketBytes(), x) && AllBytes(piece)
      modifies this`flats, memory
      ensures Valid() && flats == old(flats)[id := Spliced(old(flats)[id], x, piece)]
    {
      hide BucketsOf, Needed, Mirrors, ManagerHeader, Wrote, AllMirrored, Tabled, Zeroed, BucketAddress, Lists, IndexOf, OffsetOf, CacheGood, Spliced, BucketBytes, AllBytes;
      ghost var b := memory.bytes;
      InBuckets(id, x, piece);
      memory.Write(at, piece);
      StillBytes(b, memory.bytes, at, piece);
      WroteOne(b, memory.bytes, buckets, owner, BucketBytes(), flats, id, x, piece);
      WroteInside(b, memory.bytes, owner, at, piece, BucketAddress(allocatedBuckets, BucketBytes()));
      KeepsLength(b, memory.bytes, at, piece);
      flats := flats[id := Spliced(flats[id], x, piece)];
    }

    lemma KeepsLength(b: Bytes, b': Bytes, at: nat, piece: Bytes)
      requires Wrote(b, b', at, piece)
      ensures |b| <= |b'|
    {
    }

    /** A place in a bucket lies behind the bookkeeping page and within the buckets taken. */
    lemma InBuckets(id: nat, x: nat, piece: Bytes)
      requires Valid() && id < MAX_NUM_MEMORIES && IndexOf(x, BucketBytes()) < |buckets[id]| && OffsetOf(x, BucketBytes()) + |piece| <= BucketBytes()
      ensures |flats| == MAX_NUM_MEMORIES && Listed(buckets, owner, sizes, bucketPages)
      ensures WASM_PAGE_SIZE <= Buckets.Real(buckets[id], BucketBytes(), x)
      ensures Buckets.Real(buckets[id], BucketBytes(), x) + |piece| <= BucketAddress(allocatedBuckets, BucketBytes())
    {
      hide BucketsOf, Needed, Mirrors, ManagerHeader, Tabled, Zeroed, BucketAddress, BucketBytes;
      BucketHome(owner, buckets[id], id, IndexOf(x, BucketBytes()));
      AddressInside(buckets[id][IndexOf(x, BucketBytes())], |owner|, BucketBytes());
    }

    /** How far the buckets of a memory reach. */
    lemma Reach(id: nat)
      requires Valid() && id < MAX_NUM_MEMORIES
      ensures |flats| == |buckets| == |sizes| == MAX_NUM_MEMORIES
      ensures |flats[id]| == |buckets[id]| * BucketBytes() && sizes[id] * WASM_PAGE_SIZE <= |flats[id]|
    {
      hide BucketsOf, ManagerHeader, Tabled, Zeroed, BucketAddress, TableOf, Buckets.Real;
      assert Mirrors(memory.bytes, buckets[id], BucketBytes(), flats[id]);
      PagesInBuckets(sizes[id], |buckets[id]|, bucketPages);
    }

    /** Writes to a memory; false stands for the panic on a write out of bounds. */
    method Write(id: nat, off: nat, src: Bytes, cache: Cache) returns (ok: bool, cache': Cache)
      requires Valid() && id < MAX_NUM_MEMORIES && CacheGood(cache, buckets[id], BucketBytes()) && AllBytes(src)
      modifies this`flats, memory
      ensures Valid() && CacheGood(cache', buckets[id], BucketBytes())
      ensures cache' == if ok && !Covers(cache, off, |src|) then Touched(buckets[id], BucketBytes(), off, |src|, cache) else cache
      ensures ok <==> Covers(cache, off, |src|) || off + |src| <= sizes[id] * WASM_PAGE_SIZE
      ensures ok && 0 < |src| ==> off + |src| <= |old(flats)[id]| && flats == old(flats)[id := Spliced(old(flats)[id], off, src)]
      ensures !ok || src == [] ==> flats == old(flats)
    {
      hide BucketsOf, Needed, Mirrors, ManagerHeader, AllMirrored, Tabled, Zeroed, BucketAddress, Lists, IndexOf, OffsetOf, CacheGood, Listed, BucketBytes, Wrote, AllBytes, Touched;
      cache' := cache;
      Reach(id);
      var hit := Cached(cache, off, |src|);
      if hit.Some? {
        ok := true;
        if 0 < |src| {
          HitIsReal(cache, buckets[id], BucketBytes(), off, |src|);
          WritePiece(id, hit.value, src, off);
        }
        return;
      }
      if sizes[id] * WASM_PAGE_SIZE < off + |src| {
        return false, cache;
      }
      ok := true;
      assert src == [] ==> Spliced(flats[id], off, src) == flats[id];
      cache' := WriteEach(id, off, src, cache);
    }

    /** Writes bucket by bucket. */
    method WriteEach(id: nat, off: nat, src: Bytes, cache: Cache) returns (cache': Cache)
      requires Valid() && id < MAX_NUM_MEMORIES && CacheGood(cache, buckets[id], BucketBytes()) && off + |src| <= |flats[id]| && AllBytes(src)
      modifies this`flats, memory
      ensures Valid() && CacheGood(cache', buckets[id], BucketBytes()) && cache' == Touched(buckets[id], BucketBytes(), off, |src|, cache)
      ensures flats == old(flats)[id := Spliced(old(flats)[id], off, src)]
    {
      hide BucketsOf, Needed, Mirrors, ManagerHeader, AllMirrored, Tabled, Zeroed, BucketAddress, Lists, IndexOf, OffsetOf, CacheGood, CacheFor, Listed, BucketBytes, Wrote, AllBytes, Touched;
      cache' := cache;
      var size := BucketBytes();
      var position, bucket, start := 0, IndexOf(off, size), OffsetOf(off, size);
      Reach(id);
      UntouchedCache(buckets[id], size, off, cache);
      assert Spliced(flats[id], off, src[..0]) == flats[id];
      while position < |src|
        invariant Valid() && CacheGood(cache', buckets[id], size) && position <= |src| && cache' == Touched(buckets[id], size, off, position, cache)
        invariant flats == old(flats)[id := Spliced(old(flats)[id], off, src[..position])]
        invariant position < |src| ==> bucket == IndexOf(off + position, size) && start == OffsetOf(off + position, size)
      {
        Reach(id);
        InList(|buckets[id]|, size, off + position);
        var n := if size - start < |src| - position then size - start else |src| - position;
        var address := BucketAddress(buckets[id][bucket], size);
        CacheStored(buckets[id], size, bucket);
        TouchedLast(buckets[id], size, off, position, n, cache);
        cache' := CacheFor(buckets[id], size, bucket);
        PieceIsBytes(src, position, n);
        WritePiece(id, address + start, src[position..position + n], off + position);
        SplicedMore(old(flats)[id], off, src, position, n);
        NextBucket(off + position, size, n);
        position, bucket, start := position + n, bucket + 1, 0;
      }
      assert src[..position] == src;
    }

    /** Reads from a memory; none stands for the panic on a read out of bounds. */
    method Read(id: nat, off: nat, n: nat, cache: Cache) returns (r: Option<Bytes>, cache': Cache)
      requires Valid() && id < MAX_NUM_MEMORIES && CacheGood(cache, buckets[id], BucketBytes())
      ensures CacheGood(cache', buckets[id], BucketBytes())
      ensures cache' == if r.Some? && !Covers(cache, off, n) then Touched(buckets[id], BucketBytes(), off, n, cache) else cache
      ensures r.Some? <==> Covers(cache, off, n) || off + n <= sizes[id] * WASM_PAGE_SIZE
      ensures r.Some? && 0 < n ==> off + n <= |flats[id]| && r.value == flats[id][off..off + n]
      ensures r.Some? ==> |r.value| == n
    {
      hide BucketsOf, Needed, Mirrors, ManagerHeader, AllMirrored, Tabled, Zeroed, BucketAddress, Lists, IndexOf, OffsetOf, CacheGood, Listed, BucketBytes, AllBytes, Touched;
      cache' := cache;
      Reach(id);
      var hit := Cached(cache, off, n);
      if hit.Some? {
        if n == 0 {
          return Some([]), cache;
        }
        HitIsReal(cache, buckets[id], BucketBytes(), off, n);
        PieceHeld(id, off, n);
        var s := memory.Read(hit.value, n);
        return Some(s), cache;
      }
      if sizes[id] * WASM_PAGE_SIZE < off + n {
        return None, cache;
      }
      var s: Bytes;
      s, cache' := ReadEach(id, off, n, cache);
      r := Some(s);
    }

    /** A stretch within one bucket, as the memory holds it. */
    lemma PieceHeld(id: nat, x: nat, n: nat)
      requires Valid() && id < MAX_NUM_MEMORIES && IndexOf(x, BucketBytes()) < |buckets[id]|
      requires OffsetOf(x, BucketBytes()) + n <= BucketBytes() && x + n <= |flats[id]|
      ensures var a := Buckets.Real(buckets[id], BucketBytes(), x);
              a + n <= |memory.bytes| && memory.bytes[a..a + n] == flats[id][x..x + n]
    {
      hide BucketsOf, Needed, ManagerHeader, Tabled, Zeroed, BucketAddress, Lists, BucketBytes, TableOf, IndexOf, OffsetOf;
      Reach(id);
      InBuckets(id, x, flats[id][x..x + n]);
      assert Mirrors(memory.bytes, buckets[id], BucketBytes(), flats[id]);
      PieceMirrored(memory.bytes, buckets[id], BucketBytes(), flats[id], x, n);
    }

    method ReadEach(id: nat, off: nat, n: nat, cache: Cache) returns (r: Bytes, cache': Cache)
      requires Valid() && id < MAX_NUM_MEMORIES && CacheGood(cache, buckets[id], BucketBytes()) && off + n <= |flats[id]|
      ensures CacheGood(cache', buckets[id], BucketBytes()) && r == flats[id][off..off + n]
      ensures cache' == Touched(buckets[id], BucketBytes(), off, n, cache)
    {
      hide BucketsOf, Needed, Mirrors, ManagerHeader, AllMirrored, Tabled, Zeroed, BucketAddress, Lists, IndexOf, OffsetOf, CacheGood, CacheFor, Listed, BucketBytes, AllBytes, Touched;
      r, cache' := [], cache;
      var size := BucketBytes();
      var position, bucket, start := 0, IndexOf(off, size), OffsetOf(off, size);
      Reach(id);
      UntouchedCache(buckets[id], size, off, cache);
      while position < n
        invariant CacheGood(cache', buckets[id], size) && position <= n && r == flats[id][off..off + position]
        invariant cache' == Touched(buckets[id], size, off, position, cache)
        invariant position < n ==> bucket == IndexOf(off + position, size) && start == OffsetOf(off + position, size)
      {
        InList(|buckets[id]|, size, off + position);
        var m := if size - start < n - position then size - start else n - position;
        var address := BucketAddress(buckets[id][bucket], size);
        CacheStored(buckets[id], size, bucket);
        TouchedLast(buckets[id], size, off, position, m, cache);
        cache' := CacheFor(buckets[id], size, bucket);
        PieceHeld(id, off + position, m);
        var s := memory.Read(address + start, m);
        NextBucket(off + position, size, m);
        SliceMore(flats[id], off, position, m);
        r := r + s;
        position, bucket, start := position + m, bucket + 1, 0;
      }
    }

    /** While buckets are taken: the memories hold what they held, in the buckets they had. */
    ghost predicate Taking(lists: seq<seq<nat>>, k: nat, id: nat, n: nat)
      requires id < MAX_NUM_MEMORIES
      reads this, memory
    {
      && 0 < bucketPages < 0x1_0000 && memory.Valid() && AllBytes(memory.bytes) && allocatedBuckets == |owner| == k + n <= MAX_NUM_BUCKETS
      && |lists| == MAX_NUM_MEMORIES && buckets == lists[id := lists[id] + Row(k, n)] && Lists(buckets, owner)
      && (forall j :: 0 <= j < |owner| ==> owner[j] < MAX_NUM_MEMORIES)
      && AllMirrored(memory.bytes, lists, BucketBytes(), flats)
      && BucketAddress(k, BucketBytes()) <= |memory.bytes| && Tabled(memory.bytes, owner)
      && (clean ==> Zeroed(memory.bytes, BucketAddress(k, BucketBytes())))
    }

    /** Takes the next `n` buckets. */
    method TakeBuckets(id: nat, n: nat)
      requires Valid() && id < MAX_NUM_MEMORIES && allocatedBuckets + n <= MAX_NUM_BUCKETS
      modifies this`buckets, this`allocatedBuckets, this`owner, memory
      ensures Taking(old(buckets), old(allocatedBuckets), id, n)
    {
      hide BucketsOf, Needed, Mirrors, ManagerHeader, AllMirrored, TableOf, BucketAddress, BucketBytes, Wrote, AllBytes;
      ghost var lists, k := buckets, allocatedBuckets;
      OneByte(id);
      assert lists[id] + Row(k, 0) == lists[id];
      assert lists[id := lists[id]] == lists;
      for i := 0 to n
        invariant Taking(lists, k, id, i) && |lists| == MAX_NUM_MEMORIES
      {
        ghost var b := memory.bytes;
        memory.Write(MANAGER_HEADER_SIZE + allocatedBuckets, [id]);
        StillBytes(b, memory.bytes, MANAGER_HEADER_SIZE + allocatedBuckets, [id]);
        BucketTaken(b, memory.bytes, owner, id);
        WroteFront(b, memory.bytes, lists, BucketBytes(), flats, MANAGER_HEADER_SIZE + allocatedBuckets, [id]);
        StillZeroed(b, memory.bytes, MANAGER_HEADER_SIZE + allocatedBuckets, [id], k);
        OneMoreListed(lists, id, k, i);
        buckets := buckets[id := buckets[id] + [allocatedBuckets]];
        owner := owner + [id];
        allocatedBuckets := allocatedBuckets + 1;
      }
    }

    lemma OneByte(id: nat)
      requires id < MAX_NUM_MEMORIES
      ensures AllBytes([id])
    {
    }

    lemma StillZeroed(b: Bytes, b': Bytes, at: nat, piece: Bytes, k: nat)
      requires Wrote(b, b', at, piece) && at + |piece| <= WASM_PAGE_SIZE && 0 < bucketPages
      ensures |b| <= |b'|
      ensures Zeroed(b, BucketAddress(k, BucketBytes())) ==> Zeroed(b', BucketAddress(k, BucketBytes()))
    {
      hide BucketBytes;
      AddressInside(k, k + 1, BucketBytes());
    }

    lemma OneMoreListed(lists: seq<seq<nat>>, id: nat, k: nat, i: nat)
      requires id < MAX_NUM_MEMORIES && |lists| == MAX_NUM_MEMORIES && |owner| == k + i
      requires buckets == lists[id := lists[id] + Row(k, i)] && Lists(buckets, owner)
      ensures buckets[id := buckets[id] + [k + i]] == lists[id := lists[id] + Row(k, i + 1)]
      ensures Lists(buckets[id := buckets[id] + [k + i]], owner + [id])
    {
      hide BucketsOf;
      assert lists[id] + Row(k, i + 1) == lists[id] + Row(k, i) + [k + i];
      forall j | 0 <= j < MAX_NUM_MEMORIES
        ensures buckets[id := buckets[id] + [k + i]][j] == BucketsOf(owner + [id], j)
      {
        OneMoreBucket(owner, id, j);
        assert BucketsOf(owner, j) + [] == BucketsOf(owner, j);
      }
    }

    /** Adds pages to a memory, taking new buckets as needed; -1 if there are none left. */
    method Grow(id: nat, pages: nat) returns (r: int)
      requires Valid() && id < MAX_NUM_MEMORIES
      modifies this, memory
      ensures Valid()
      ensures forall j :: 0 <= j < MAX_NUM_MEMORIES ==> old(buckets[j]) <= buckets[j]
      ensures forall j :: 0 <= j < MAX_NUM_MEMORIES && j != id ==> flats[j] == old(flats[j]) && sizes[j] == old(sizes[j])
      ensures r == -1 <==> MAX_NUM_BUCKETS < old(allocatedBuckets) + (Needed(old(sizes[id]) + pages, bucketPages) - Needed(old(sizes[id]), bucketPages))
      ensures r == -1 ==> flats == old(flats) && sizes == old(sizes)
      ensures r != -1 ==> r == old(sizes[id]) && sizes[id] == old(sizes[id]) + pages && old(flats[id]) <= flats[id]
      ensures clean ==> forall x :: |old(flats[id])| <= x < |flats[id]| ==> flats[id][x] == 0
      ensures r == -1 ==> allocatedBuckets == old(allocatedBuckets)
      ensures r != -1 ==> allocatedBuckets == old(allocatedBuckets) + (Needed(sizes[id], bucketPages) - Needed(old(sizes[id]), bucketPages))
    {
      hide BucketsOf, Needed, Mirrors, ManagerHeader, AllMirrored, Tabled, TableOf, Zeroed, BucketAddress, BucketBytes, Lists, AllBytes;
      Reach(id);
      var old_ := sizes[id];
      NeededMore(old_, old_ + pages, bucketPages);
      var more := Needed(old_ + pages, bucketPages) - Needed(old_, bucketPages);
      if MAX_NUM_BUCKETS < more + allocatedBuckets {
        return -1;
      }
      ghost var lists, k := buckets, allocatedBuckets;
      TakeBuckets(id, more);
      GrowMemory(id, lists, k, more);
      sizes := sizes[id := old_ + pages];
      SaveHeader();
      r := old_;
    }

    /** Makes room for the buckets taken. */
    method GrowMemory(id: nat, ghost lists: seq<seq<nat>>, ghost k: nat, ghost n: nat)
      requires id < MAX_NUM_MEMORIES && Taking(lists, k, id, n)
      modifies this`flats, memory
      ensures 0 < bucketPages < 0x1_0000 && memory.Valid() && AllBytes(memory.bytes) && AllMirrored(memory.bytes, buckets, BucketBytes(), flats)
      ensures BucketAddress(allocatedBuckets, BucketBytes()) <= |memory.bytes| && Tabled(memory.bytes, owner)
      ensures clean ==> Zeroed(memory.bytes, BucketAddress(allocatedBuckets, BucketBytes()))
      ensures |flats| == |old(flats)| == MAX_NUM_MEMORIES && old(flats[id]) <= flats[id]
      ensures forall j :: 0 <= j < MAX_NUM_MEMORIES && j != id ==> flats[j] == old(flats[j])
      ensures clean ==> forall x :: |old(flats[id])| <= x < |flats[id]| ==> flats[id][x] == 0
    {
      hide BucketsOf, Needed, Mirrors, ManagerHeader, TableOf, BucketAddress, BucketBytes, Lists, Stretch, Row, AllBytes;
      var pagesNeeded := 1 + bucketPages * allocatedBuckets;
      ghost var b := memory.bytes;
      if memory.Size() < pagesNeeded {
        memory.Grow(pagesNeeded - memory.Size());
      }
      GrownBytes(b, memory.bytes);
      RoomFor(memory.bytes, allocatedBuckets);
      MoreZeroes(b, memory.bytes, k, allocatedBuckets);
      GrownMirrors(b, memory.bytes, lists, BucketBytes(), flats, id, k, n);
      StretchZero(memory.bytes, k, n, BucketBytes());
      flats := flats[id := flats[id] + Stretch(memory.bytes, k, n, BucketBytes())];
    }

    lemma GrownBytes(b: Bytes, b': Bytes)
      requires AllBytes(b) && b <= b' && forall i :: |b| <= i < |b'| ==> b'[i] == 0
      ensures AllBytes(b')
    {
    }

    lemma RoomFor(b: Bytes, n: nat)
      requires |b| % WASM_PAGE_SIZE == 0 && 1 + bucketPages * n <= |b| / WASM_PAGE_SIZE
      ensures BucketAddress(n, BucketBytes()) <= |b|
    {
      assert BucketAddress(n, BucketBytes()) == WASM_PAGE_SIZE * (1 + bucketPages * n);
    }

    lemma MoreZeroes(b: Bytes, b': Bytes, k: nat, n: nat)
      requires b <= b' && (forall i :: |b| <= i < |b'| ==> b'[i] == 0) && k <= n
      ensures Zeroed(b, BucketAddress(k, BucketBytes())) ==> Zeroed(b', BucketAddress(k, BucketBytes())) && Zeroed(b', BucketAddress(n, BucketBytes()))
    {
      hide BucketBytes;
      if k < n {
        BucketsApart(k, n, BucketBytes());
      }
    }

    /** No memory has more pages than all buckets have. */
    lemma SizesFit()
      requires 0 < bucketPages < 0x1_0000 && |owner| <= MAX_NUM_BUCKETS && Listed(buckets, owner, sizes, bucketPages)
      ensures forall i :: 0 <= i < |sizes| ==> sizes[i] < ADDRESS_SPACE
    {
      hide Needed, BucketsOf;
      forall i | 0 <= i < |sizes|
        ensures sizes[i] < ADDRESS_SPACE
      {
        var n := |buckets[i]|;
        assert buckets[i] == BucketsOf(owner, i) && sizes[i] <= n * bucketPages;
        NonzeroTimes(MAX_NUM_BUCKETS - n, bucketPages);
        assert MAX_NUM_BUCKETS * bucketPages == n * bucketPages + (MAX_NUM_BUCKETS - n) * bucketPages;
      }
    }

    /** Writes the header. */
    method SaveHeader()
      requires 0 < bucketPages < 0x1_0000 && memory.Valid() && AllBytes(memory.bytes) && allocatedBuckets == |owner| <= MAX_NUM_BUCKETS
      requires Listed(buckets, owner, sizes, bucketPages) && AllMirrored(memory.bytes, buckets, BucketBytes(), flats)
      requires BucketAddress(allocatedBuckets, BucketBytes()) <= |memory.bytes| && Tabled(memory.bytes, owner)
      requires clean ==> Zeroed(memory.bytes, BucketAddress(allocatedBuckets, BucketBytes()))
      modifies memory
      ensures Valid()
    {
      hide BucketsOf, Needed, Mirrors, ManagerHeader, AllMirrored, TableOf, BucketAddress, BucketBytes, Lists, Wrote, AllBytes;
      SizesFit();
      ManagerHeaderIsBytes(allocatedBuckets, bucketPages, sizes);
      var h := ManagerHeader(allocatedBuckets, bucketPages, sizes);
      ghost var b := memory.bytes;
      memory.Write(0, h);
      StillBytes(b, memory.bytes, 0, h);
      ReadBack(b, memory.bytes, 0, h);
      ReadOther(b, memory.bytes, 0, h, MANAGER_HEADER_SIZE, TABLE_END);
      WroteFront(b, memory.bytes, buckets, BucketBytes(), flats, 0, h);
      StillZeroed(b, memory.bytes, 0, h, allocatedBuckets);
    }
  }

  lemma {:induction false} HeaderParts(taken: nat, bucketPages: nat, sizes: seq<nat>)
    ensures var h := ManagerHeader(taken, bucketPages, sizes);
            h[..3] == [77, 71, 82] && h[3] == 1 && FromLE(h[4..6]) == taken && FromLE(h[6..8]) == bucketPages && h[40..] == ChildBytes(sizes)
  {
    hide U16, ChildBytes;
    var h := ManagerHeader(taken, bucketPages, sizes);
    assert h[4..6] == U16(taken) && h[6..8] == U16(bucketPages);
  }

  method ReadSizes(s: Bytes, ghost sizes: seq<nat>) returns (r: seq<nat>)
    requires |sizes| == MAX_NUM_MEMORIES && s == ChildBytes(sizes)
    ensures r == sizes
  {
    hide U64, ChildBytes;
    r := [];
    for i := 0 to MAX_NUM_MEMORIES
      invariant r == sizes[..i]
    {
      ChildSlice(sizes, i);
      r := r + [FromLE(s[8 * i..8 * i + 8])];
    }
  }

  /** Sorts the buckets in the table by owner. */
  method ReadTable(t: Bytes, ghost owner: seq<nat>) returns (lists: seq<seq<nat>>)
    requires t == TableOf(owner) && |owner| <= MAX_NUM_BUCKETS && forall k :: 0 <= k < |owner| ==> owner[k] < MAX_NUM_MEMORIES
    ensures Lists(lists, owner)
  {
    hide BucketsOf, TableOf;
    lists := seq(MAX_NUM_MEMORIES, _ => []);
    NoBuckets();
    for k := 0 to MAX_NUM_BUCKETS
      invariant Lists(lists, owner[..if k < |owner| then k else |owner|])
    {
      if t[k] != UNALLOCATED_BUCKET_MARKER {
        assert k < |owner| && t[k] == owner[k];
        TableStep(lists, owner, k);
        lists := lists[t[k] := lists[t[k]] + [k]];
      }
    }
    assert owner[..|owner|] == owner;
  }

  lemma {:induction false} NoBuckets()
    ensures forall id :: BucketsOf([], id) == []
  {
  }

  lemma {:induction false} TableStep(lists: seq<seq<nat>>, owner: seq<nat>, k: nat)
    requires k < |owner| && owner[k] < MAX_NUM_MEMORIES && Lists(lists, owner[..k])
    ensures Lists(lists[owner[k] := lists[owner[k]] + [k]], owner[..k + 1])
  {
    hide BucketsOf;
    assert owner[..k + 1] == owner[..k] + [owner[k]];
    var lists' := lists[owner[k] := lists[owner[k]] + [k]];
    forall j | 0 <= j < MAX_NUM_MEMORIES
      ensures lists'[j] == BucketsOf(owner[..k + 1], j)
    {
      OneMoreBucket(owner[..k], owner[k], j);
      assert BucketsOf(owner[..k], j) + [] == BucketsOf(owner[..k], j);
    }
  }

  lemma {:induction false} GrownMirrors(b: Bytes, b': Bytes, lists: seq<seq<nat>>, size: nat, flats: seq<Bytes>, id: nat, k: nat, n: nat)
    requires 0 < size && AllMirrored(b, lists, size, flats) && b <= b' && id < |lists| && BucketAddress(k + n, size) <= |b'|
    ensures AllMirrored(b', lists[id := lists[id] + Row(k, n)], size, flats[id := flats[id] + Stretch(b', k, n, size)])
  {
    hide Mirrors, Row, Stretch, BucketAddress;
    var lists', flats' := lists[id := lists[id] + Row(k, n)], flats[id := flats[id] + Stretch(b', k, n, size)];
    forall j | 0 <= j < |lists|
      ensures Mirrors(b', lists'[j], size, flats'[j])
    {
      MirrorsGrown(b, b', lists[j], size, flats[j]);
      if j == id {
        MirrorsRow(b', lists[id], size, flats[id], k, n);
      }
    }
  }

  lemma {:induction false} StretchZero(b: Bytes, k: nat, n: nat, size: nat)
    ensures Zeroed(b, BucketAddress(k, size)) ==> forall x :: 0 <= x < |Stretch(b, k, n, size)| ==> Stretch(b, k, n, size)[x] == 0
  {
    hide BucketAddress;
  }

  lemma {:induction false} PieceMirrored(b: Bytes, l: seq<nat>, size: nat, f: Bytes, x: nat, n: nat)
    requires 0 < size && Mirrors(b, l, size, f) && IndexOf(x, size) < |l| && OffsetOf(x, size) + n <= size && x + n <= |f|
    requires Buckets.Real(l, size, x) + n <= |b|
    ensures b[Buckets.Real(l, size, x)..Buckets.Real(l, size, x) + n] == f[x..x + n]
  {
    hide BucketAddress;
    var s := b[Buckets.Real(l, size, x)..Buckets.Real(l, size, x) + n];
    forall i | 0 <= i < n
      ensures s[i] == f[x..x + n][i]
    {
      DivStep(x, size, i);
      assert Buckets.Real(l, size, x + i) == Buckets.Real(l, size, x) + i;
    }
  }

  lemma {:induction false} SliceMore(f: Bytes, off: nat, p: nat, m: nat)
    requires off + p + m <= |f|
    ensures f[off..off + p] + f[off + p..off + p + m] == f[off..off + (p + m)]
  {
  }

  lemma {:induction false} PagesInBuckets(pages: nat, n: nat, bucketPages: nat)
    requires pages <= n * bucketPages
    ensures pages * WASM_PAGE_SIZE <= n * (bucketPages * WASM_PAGE_SIZE)
  {
    assert n * (bucketPages * WASM_PAGE_SIZE) == n * bucketPages * WASM_PAGE_SIZE;
  }

  lemma {:induction false} PieceIsBytes(src: Bytes, p: nat, n: nat)
    requires AllBytes(src) && p + n <= |src|
    ensures AllBytes(src[p..p + n])
  {
  }

  lemma {:induction false} UntouchedCache(l: seq<nat>, size: nat, off: nat, c: Cache)
    requires 0 < size
    ensures Touched(l, size, off, 0, c) == c
  {
  }

  /** The bucket of a stretch that lies in it is the bucket of the last byte of the stretch. */
  lemma {:induction false} TouchedLast(l: seq<nat>, size: nat, off: nat, p: nat, n: nat, c: Cache)
    requires 0 < size && 0 < n && OffsetOf(off + p, size) + n <= size && IndexOf(off + p, size) < |l|
    ensures Touched(l, size, off, p + n, c) == CacheFor(l, size, IndexOf(off + p, size))
  {
    hide BucketAddress;
    var x := off + p;
    assert x == IndexOf(x, size) * size + OffsetOf(x, size);
    DivUnique(x + n - 1, size, IndexOf(x, size), OffsetOf(x, size) + n - 1);
    assert off + (p + n) - 1 == x + n - 1;
  }

  lemma {:induction false} CacheStored(l: seq<nat>, size: nat, k: nat)
    requires 0 < size && k < |l|
    ensures CacheGood(CacheFor(l, size, k), l, size)
  {
    hide BucketAddress;
    DivUnique(k * size, size, k, 0);
  }

  /** A stretch that does not end in its bucket goes on at the start of the next. */
  lemma {:induction false} NextBucket(x: nat, size: nat, n: nat)
    requires 0 < size && OffsetOf(x, size) + n <= size
    ensures OffsetOf(x, size) + n == size ==> IndexOf(x + n, size) == IndexOf(x, size) + 1 && OffsetOf(x + n, size) == 0
  {
    assert x == IndexOf(x, size) * size + OffsetOf(x, size);
    if OffsetOf(x, size) + n == size {
      assert (IndexOf(x, size) + 1) * size == IndexOf(x, size) * size + size;
      DivUnique(x + n, size, IndexOf(x, size) + 1, 0);
    }
  }

  lemma {:induction false} SplicedMore(f: Bytes, off: nat, src: Bytes, p: nat, n: nat)
    requires off + |src| <= |f| && p + n <= |src|
    ensures |Spliced(f, off, src[..p])| == |f|
    ensures Spliced(Spliced(f, off, src[..p]), off + p, src[p..p + n]) == Spliced(f, off, src[..p + n])
  {
  }

  // ---- Accesses past the size of a memory

  /** An access that a handle accepts although it ends past the size of its memory. */
  ghost predicate AcceptedPast(c: Cache, size: nat, off: nat, n: nat) {
    0 < n && size * WASM_PAGE_SIZE < off + n && Covers(c, off, n)
  }

  /** A handle can come to accept an access past the size of its memory exactly if the size is no multiple of the bucket
      size: a cached bucket is taken to be the memory's from end to end. */
  lemma {:induction false} PastSizeExact(m: MemoryManager, id: nat)
    requires m.Valid() && id < MAX_NUM_MEMORIES
    ensures (exists c, off, n :: CacheGood(c, m.buckets[id], m.BucketBytes()) && AcceptedPast(c, m.sizes[id], off, n))
            <==> m.sizes[id] % m.bucketPages != 0
  {
    hide BucketsOf, Needed, Mirrors, ManagerHeader, Tabled, Zeroed, BucketAddress, Lists, AllBytes;
    m.Reach(id);
    var l, size := m.buckets[id], m.BucketBytes();
    LastBucket(m.sizes[id], |l|, m.bucketPages);
    if m.sizes[id] % m.bucketPages != 0 {
      CacheStored(l, size, |l| - 1);
      LastBucketBytes(m.sizes[id], |l|, m.bucketPages);
      assert AcceptedPast(CacheFor(l, size, |l| - 1), m.sizes[id], m.sizes[id] * WASM_PAGE_SIZE, 1);
    } else {
      forall c: Cache, off: nat, n: nat | CacheGood(c, l, size)
        ensures !AcceptedPast(c, m.sizes[id], off, n)
      {
        if Covers(c, off, n) && 0 < n {
          HitIsReal(c, l, size, off, n);
          assert |l| * size == |l| * m.bucketPages * WASM_PAGE_SIZE;
        }
      }
    }
  }

  lemma {:induction false} LastBucket(pages: nat, n: nat, c: nat)
    requires 0 < c && n == Needed(pages, c)
    ensures pages % c == 0 ==> n * c == pages
    ensures pages % c != 0 ==> 0 < n && (n - 1) * c < pages < n * c
  {
    var q := pages / c;
    assert pages == q * c + pages % c;
    if pages % c == 0 {
      NonzeroTimes(n - 1 - q, c);
      NonzeroTimes(q - n, c);
      assert (n - 1) * c - q * c == (n - 1 - q) * c && q * c - n * c == (q - n) * c;
    } else if n * c == pages {
      DivUnique(pages, c, n, 0);
    }
  }

  lemma {:induction false} LastBucketBytes(pages: nat, n: nat, c: nat)
    requires 0 < n && (n - 1) * c < pages < n * c
    ensures (n - 1) * (c * WASM_PAGE_SIZE) <= pages * WASM_PAGE_SIZE
    ensures pages * WASM_PAGE_SIZE + 1 <= (n - 1) * (c * WASM_PAGE_SIZE) + c * WASM_PAGE_SIZE
  {
    assert (n - 1) * (c * WASM_PAGE_SIZE) == (n - 1) * c * WASM_PAGE_SIZE;
    assert (n - 1) * c + c == n * c;
  }

  // ---- Whole runs

  /** Operations on handles; `Reload` drops the manager and all handles, and finds it again in memory. */
  datatype Op =
    | GrowBy(who: nat, pages: nat)
    | WriteAt(who: nat, off: nat, src: Bytes)
    | ReadAt(who: nat, off: nat, n: nat)
    | Reload

  datatype Outcome = Grown(old_: int) | Written(ok: bool) | Data(bytes: Option<Bytes>) | Reloaded

  /** What can be told of a manager and its handles: what each memory holds, its size in pages, how many buckets are
      taken, and the cache of each handle. */
  datatype State = State(flats: seq<Bytes>, sizes: seq<nat>, taken: nat, caches: seq<Cache>)

  /** The cache of a handle has the bucket of the last byte of an access. */
  predicate CacheMoved(c: Cache, bucketBytes: nat, off: nat, n: nat) {
    0 < bucketBytes && 0 < n && c.start == IndexOf(off + n - 1, bucketBytes) * bucketBytes && c.length == bucketBytes
  }

  /** An access is accepted exactly if it hits the cache of the handle or lies within the size. */
  predicate Accepted(s: State, id: nat, who: nat, off: nat, n: nat)
    requires id < |s.sizes| && who < |s.caches|
  {
    Covers(s.caches[who], off, n) || off + n <= s.sizes[id] * WASM_PAGE_SIZE
  }

  /** What an access does to the caches: none but that of the handle changes, and that only on an access accepted
      without a hit. */
  predicate CachesAfter(s: State, s': State, who: nat, off: nat, n: nat, ok: bool, bucketBytes: nat)
    requires who < |s.caches|
  {
    && |s'.caches| == |s.caches|
    && (forall j :: 0 <= j < |s.caches| && j != who ==> s'.caches[j] == s.caches[j])
    && if ok && 0 < n && !Covers(s.caches[who], off, n) then CacheMoved(s'.caches[who], bucketBytes, off, n)
       else s'.caches[who] == s.caches[who]
  }

  /** One step: a write changes its own range of its own memory, a read tells what is there, growing adds zeroes at the
      end; all are refused exactly when they should be, and nothing else changes. */
  ghost predicate Explained(bucketPages: nat, ids: seq<nat>, s: State, op: Op, out: Outcome, s': State, clean: bool) {
    && |s.flats| == |s.sizes| == MAX_NUM_MEMORIES && |s.caches| == |ids| && 0 < bucketPages
    && match op
       case Reload =>
         out.Reloaded? && s' == s.(caches := seq(|ids|, _ => COLD))
       case GrowBy(who, pages) =>
         && who < |ids| && ids[who] < MAX_NUM_MEMORIES && out.Grown? && s'.caches == s.caches
         && var id := ids[who];
            var more := Needed(s.sizes[id] + pages, bucketPages) - Needed(s.sizes[id], bucketPages);
            if MAX_NUM_BUCKETS < s.taken + more then out.old_ == -1 && s' == s
            else
              && out.old_ == s.sizes[id] && s'.sizes == s.sizes[id := s.sizes[id] + pages] && s'.taken == s.taken + more
              && |s'.flats| == |s.flats| && s'.flats == s.flats[id := s'.flats[id]] && s.flats[id] <= s'.flats[id]
              && |s'.flats[id]| == Needed(s'.sizes[id], bucketPages) * (bucketPages * WASM_PAGE_SIZE)
              && (clean ==> forall x :: |s.flats[id]| <= x < |s'.flats[id]| ==> s'.flats[id][x] == 0)
       case WriteAt(who, off, src) =>
         && who < |ids| && ids[who] < MAX_NUM_MEMORIES && s'.sizes == s.sizes && s'.taken == s.taken
         && var id := ids[who];
            && out == Written(Accepted(s, id, who, off, |src|))
            && CachesAfter(s, s', who, off, |src|, out.ok, bucketPages * WASM_PAGE_SIZE)
            && if out.ok && 0 < |src| then off + |src| <= |s.flats[id]| && s'.flats == s.flats[id := Spliced(s.flats[id], off, src)]
               else s'.flats == s.flats
       case ReadAt(who, off, n) =>
         && who < |ids| && ids[who] < MAX_NUM_MEMORIES && s'.sizes == s.sizes && s'.taken == s.taken && s'.flats == s.flats
         && var id := ids[who];
            && out.Data? && (out.bytes.Some? <==> Accepted(s, id, who, off, n))
            && CachesAfter(s, s', who, off, n, out.bytes.Some?, bucketPages * WASM_PAGE_SIZE)
            && (out.bytes.Some? ==> |out.bytes.value| == n && (0 < n ==> off + n <= |s.flats[id]| && out.bytes.value == s.flats[id][off..off + n]))
  }

  ghost function StateOf(m: MemoryManager, caches: seq<Cache>): State
    reads m
  {
    State(m.flats, m.sizes, m.allocatedBuckets, caches)
  }

  /** Operations name handles there are, and write bytes. */
  ghost predicate Proper(ids: seq<nat>, op: Op) {
    (op.Reload? || op.who < |ids|) && (op.WriteAt? ==> AllBytes(op.src))
  }

  /** Any run of operations on any handles of a manager, with reloads in between. */
  method Run(m: MemoryManager, ids: seq<nat>, ops: seq<Op>) returns (outs: seq<Outcome>, m': MemoryManager, ghost trace: seq<State>)
    requires m.Valid() && (forall i :: 0 <= i < |ids| ==> ids[i] < MAX_NUM_MEMORIES) && (forall k :: 0 <= k < |ops| ==> Proper(ids, ops[k]))
    modifies m, m.memory
    ensures m'.Valid() && m'.memory == m.memory && m'.bucketPages == m.bucketPages && m'.clean == m.clean && (m' == m || fresh(m'))
    ensures |outs| == |ops| && |trace| == |ops| + 1 && trace[0] == old(StateOf(m, seq(|ids|, _ => COLD)))
    ensures trace[|ops|] == StateOf(m', trace[|ops|].caches)
    ensures forall k :: 0 <= k < |ops| ==> Explained(m.bucketPages, ids, trace[k], ops[k], outs[k], trace[k + 1], m.clean)
  {
    hide MemoryManager.Valid, CacheGood, Explained, Proper;
    var caches: seq<Cache> := seq(|ids|, _ => COLD);
    m' := m;
    ColdCaches(m, ids, caches);
    outs, trace := [], [StateOf(m, caches)];
    for k := 0 to |ops|
      invariant CachesGood(m', ids, caches) && (m' == m || fresh(m'))
      invariant m'.memory == m.memory && m'.bucketPages == m.bucketPages && m'.clean == m.clean
      invariant |outs| == k && |trace| == k + 1 && trace[0] == old(StateOf(m, seq(|ids|, _ => COLD))) && trace[k] == StateOf(m', caches)
      invariant forall j :: 0 <= j < k ==> Explained(m.bucketPages, ids, trace[j], ops[j], outs[j], trace[j + 1], m.clean)
    {
      var out;
      out, m', caches := Step(m', ids, caches, ops[k]);
      outs, trace := outs + [out], trace + [StateOf(m', caches)];
    }
  }

  /** The cache of every handle is good. */
  ghost predicate CachesGood(m: MemoryManager, ids: seq<nat>, caches: seq<Cache>)
    reads m, m.memory
  {
    && m.Valid() && |caches| == |ids|
    && forall i :: 0 <= i < |ids| ==> ids[i] < MAX_NUM_MEMORIES && CacheGood(caches[i], m.buckets[ids[i]], m.BucketBytes())
  }

  lemma {:induction false} ColdCaches(m: MemoryManager, ids: seq<nat>, caches: seq<Cache>)
    requires m.Valid() && |caches| == |ids| && forall i :: 0 <= i < |ids| ==> ids[i] < MAX_NUM_MEMORIES && caches[i] == COLD
    ensures CachesGood(m, ids, caches)
  {
    hide MemoryManager.BucketBytes, Lists, AllMirrored, Tabled, Zeroed, ManagerHeader, BucketAddress, Needed, AllBytes;
  }

  method Step(m: MemoryManager, ids: seq<nat>, caches: seq<Cache>, op: Op) returns (out: Outcome, m': MemoryManager, caches': seq<Cache>)
    requires CachesGood(m, ids, caches) && Proper(ids, op)
    modifies m, m.memory
    ensures CachesGood(m', ids, caches') && (m' == m || fresh(m'))
    ensures m'.memory == m.memory && m'.bucketPages == m.bucketPages && m'.clean == m.clean
    ensures Explained(m.bucketPages, ids, old(StateOf(m, caches)), op, out, StateOf(m', caches'), m.clean)
  {
    hide MemoryManager.Valid, CacheGood, Needed, Covers, Spliced;
    m' := m;
    match op
    case GrowBy(who, pages) =>
      var r := GrowStep(m, ids, caches, who, pages);
      out, caches' := Grown(r), caches;
    case WriteAt(who, off, src) =>
      var ok: bool;
      ok, caches' := WriteStep(m, ids, caches, who, off, src);
      out := Written(ok);
    case ReadAt(who, off, n) =>
      var r: Option<Bytes>;
      r, caches' := ReadStep(m, ids, caches, who, off, n);
      out := Data(r);
    case Reload =>
      out := Reloaded;
      m', caches' := ReloadStep(m, ids, caches);
  }

  method GrowStep(m: MemoryManager, ids: seq<nat>, caches: seq<Cache>, who: nat, pages: nat) returns (r: int)
    requires CachesGood(m, ids, caches) && who < |ids|
    modifies m, m.memory
    ensures CachesGood(m, ids, caches)
    ensures Explained(m.bucketPages, ids, old(StateOf(m, caches)), GrowBy(who, pages), Grown(r), StateOf(m, caches), m.clean)
  {
    hide CacheGood, Lists, AllMirrored, Tabled, Zeroed, ManagerHeader, BucketAddress, Needed, AllBytes, TableOf;
    var id := ids[who];
    m.Reach(id);
    ghost var lists, flats, sizes := m.buckets, m.flats, m.sizes;
    r := m.Grow(id, pages);
    m.Reach(id);
    CachesStay(m, ids, caches, lists);
    if r == -1 {
      assert StateOf(m, caches) == old(StateOf(m, caches));
    } else {
      assert m.flats == flats[id := m.flats[id]];
      assert m.sizes == sizes[id := sizes[id] + pages];
    }
  }

  method WriteStep(m: MemoryManager, ids: seq<nat>, caches: seq<Cache>, who: nat, off: nat, src: Bytes) returns (ok: bool, caches': seq<Cache>)
    requires CachesGood(m, ids, caches) && who < |ids| && AllBytes(src)
    modifies m, m.memory
    ensures CachesGood(m, ids, caches')
    ensures Explained(m.bucketPages, ids, old(StateOf(m, caches)), WriteAt(who, off, src), Written(ok), StateOf(m, caches'), m.clean)
  {
    hide CacheGood, Lists, AllMirrored, Tabled, Zeroed, ManagerHeader, BucketAddress, Needed, AllBytes, TableOf, Covers, Touched, IndexOf;
    var id := ids[who];
    m.Reach(id);
    var c;
    ok, c := m.Write(id, off, src, caches[who]);
    MovedCache(m.buckets[id], m.BucketBytes(), off, |src|, caches[who]);
    caches' := caches[who := c];
  }

  method ReadStep(m: MemoryManager, ids: seq<nat>, caches: seq<Cache>, who: nat, off: nat, n: nat) returns (r: Option<Bytes>, caches': seq<Cache>)
    requires CachesGood(m, ids, caches) && who < |ids|
    ensures CachesGood(m, ids, caches')
    ensures Explained(m.bucketPages, ids, StateOf(m, caches), ReadAt(who, off, n), Data(r), StateOf(m, caches'), m.clean)
  {
    hide CacheGood, Lists, AllMirrored, Tabled, Zeroed, ManagerHeader, BucketAddress, Needed, AllBytes, TableOf, Covers, Touched, IndexOf;
    var id := ids[who];
    m.Reach(id);
    var c;
    r, c := m.Read(id, off, n, caches[who]);
    MovedCache(m.buckets[id], m.BucketBytes(), off, n, caches[who]);
    caches' := caches[who := c];
  }

  /** An access within the buckets of a memory leaves its last bucket in the cache. */
  lemma {:induction false} MovedCache(l: seq<nat>, size: nat, off: nat, n: nat, c: Cache)
    requires 0 < size
    ensures n == 0 ==> Touched(l, size, off, n, c) == c
    ensures 0 < n && off + n <= |l| * size ==> CacheMoved(Touched(l, size, off, n, c), size, off, n)
  {
    hide BucketAddress;
    if 0 < n {
      InList(|l|, size, off + n - 1);
    }
  }

  method ReloadStep(m: MemoryManager, ids: seq<nat>, caches: seq<Cache>) returns (m': MemoryManager, caches': seq<Cache>)
    requires CachesGood(m, ids, caches)
    ensures CachesGood(m', ids, caches') && fresh(m')
    ensures m'.memory == m.memory && m'.bucketPages == m.bucketPages && m'.clean == m.clean
    ensures StateOf(m', caches') == StateOf(m, seq(|ids|, _ => COLD)) && |m.flats| == |m.sizes| == MAX_NUM_MEMORIES && 0 < m.bucketPages
  {
    hide CacheGood, Lists, Mirrors, Tabled, Zeroed, ManagerHeader, BucketAddress, Needed, AllBytes, TableOf;
    m.Reach(0);
    m' := new MemoryManager.Load(m.memory, m);
    caches' := seq(|ids|, _ => COLD);
    ColdCaches(m', ids, caches');
  }

  /** No cache is spoilt when lists grow. */
  lemma {:induction false} CachesStay(m: MemoryManager, ids: seq<nat>, caches: seq<Cache>, lists: seq<seq<nat>>)
    requires m.Valid() && |caches| == |ids| && |lists| == MAX_NUM_MEMORIES
    requires forall i :: 0 <= i < |ids| ==> ids[i] < MAX_NUM_MEMORIES && CacheGood(caches[i], lists[ids[i]], m.BucketBytes())
    requires forall j :: 0 <= j < MAX_NUM_MEMORIES ==> lists[j] <= m.buckets[j]
    ensures CachesGood(m, ids, caches)
  {
    hide MemoryManager.BucketBytes, CacheGood, AllMirrored, BucketsOf, Tabled, Zeroed, ManagerHeader, BucketAddress, Needed, AllBytes;
    forall i | 0 <= i < |ids|
      ensures CacheGood(caches[i], m.buckets[ids[i]], m.BucketBytes())
    {
      CacheStays(caches[i], lists[ids[i]], m.buckets[ids[i]], m.BucketBytes());
    }
  }

  // ---- A run that goes past the size of a memory

  /** Such a run: a memory of one page, a write at its start, and then a write and a read behind its end. */
  method PastSizeRun(memory: Memory) returns (outs: seq<Outcome>, m: MemoryManager)
    requires memory.Valid() && AllBytes(memory.bytes)
    modifies memory
    ensures outs == [Grown(0), Written(true), Written(true), Data(Some([2]))]
    ensures m.Valid() && |m.sizes| == MAX_NUM_MEMORIES && m.sizes[0] == 1
  {
    hide MemoryManager.Valid, Explained;
    m := new MemoryManager(memory, 128);
    var ops := [GrowBy(0, 1), WriteAt(0, 0, [1]), WriteAt(0, WASM_PAGE_SIZE, [2]), ReadAt(0, WASM_PAGE_SIZE, 1)];
    ghost var clean := m.clean;
    ghost var trace;
    outs, m, trace := Run(m, [0], ops);
    assert ops[0].GrowBy? && ops[1].WriteAt? && ops[2].WriteAt? && ops[3].ReadAt?;
    PastSizeGrow(trace[0], outs[0], trace[1], clean);
    PastSizeFirst(trace[1], outs[1], trace[2], clean);
    PastSizeWrite(trace[2], outs[2], trace[3], clean);
    PastSizeRead(trace[3], outs[3], trace[4], clean);
  }

  lemma {:induction false} PastSizeGrow(s: State, out: Outcome, s': State, clean: bool)
    requires Explained(128, [0], s, GrowBy(0, 1), out, s', clean) && s.caches == [COLD] && s.taken == 0 && s.sizes[0] == 0
    ensures out == Grown(0) && s'.caches == [COLD] && |s'.sizes| == MAX_NUM_MEMORIES && s'.sizes[0] == 1
  {
  }

  lemma {:induction false} PastSizeFirst(s: State, out: Outcome, s': State, clean: bool)
    requires Explained(128, [0], s, WriteAt(0, 0, [1]), out, s', clean) && s.caches == [COLD] && s.sizes[0] == 1
    ensures out == Written(true) && |s'.caches| == 1 && s'.caches[0].start == 0 && s'.caches[0].length == 128 * WASM_PAGE_SIZE
    ensures s'.sizes == s.sizes
  {
  }

  lemma {:induction false} PastSizeWrite(s: State, out: Outcome, s': State, clean: bool)
    requires Explained(128, [0], s, WriteAt(0, WASM_PAGE_SIZE, [2]), out, s', clean)
    requires |s.caches| == 1 && s.caches[0].start == 0 && s.caches[0].length == 128 * WASM_PAGE_SIZE
    ensures out == Written(true) && s'.caches == s.caches && s'.sizes == s.sizes
    ensures |s'.flats| == MAX_NUM_MEMORIES && WASM_PAGE_SIZE < |s'.flats[0]| && s'.flats[0][WASM_PAGE_SIZE] == 2
  {
    assert s'.flats[0] == Spliced(s.flats[0], WASM_PAGE_SIZE, [2]);
  }

  lemma {:induction false} PastSizeRead(s: State, out: Outcome, s': State, clean: bool)
    requires Explained(128, [0], s, ReadAt(0, WASM_PAGE_SIZE, 1), out, s', clean)
    requires |s.caches| == 1 && s.caches[0].start == 0 && s.caches[0].length == 128 * WASM_PAGE_SIZE
    requires WASM_PAGE_SIZE < |s.flats[0]| && s.flats[0][WASM_PAGE_SIZE] == 2
    ensures out == Data(Some([2])) && s'.sizes == s.sizes
  {
    assert s.flats[0][WASM_PAGE_SIZE..WASM_PAGE_SIZE + 1] == [2];
  }
}
