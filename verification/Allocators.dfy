/** The free-list allocator of equal chunks, with its lists kept in the memory it manages. */
module Allocators {
  import opened Types
  import opened Layout
  import opened Memories

  const ALLOCATOR_HEADER_SIZE: nat := 48
  const CHUNK_HEADER_SIZE: nat := 16
  const ALLOCATOR_MAGIC: Bytes := [66, 84, 65]
  const CHUNK_MAGIC: Bytes := [67, 72, 75]
  const ALLOCATOR_LAYOUT_VERSION: nat := 1
  const CHUNK_LAYOUT_VERSION: nat := 1

  /** The header in front of every chunk. */
  datatype Chunk = Chunk(taken: bool, next: Address)

  function ChunkBytes(c: Chunk): (s: Bytes)
    ensures |s| == CHUNK_HEADER_SIZE
  {
    CHUNK_MAGIC + [CHUNK_LAYOUT_VERSION, if c.taken then 1 else 0, 0, 0, 0] + U64(c.next)
  }

  function AllocatorBytes(size: nat, count: nat, head: Address): (s: Bytes)
    ensures |s| == ALLOCATOR_HEADER_SIZE
  {
    ALLOCATOR_MAGIC + [ALLOCATOR_LAYOUT_VERSION, 0, 0, 0, 0] + U64(size) + U64(count) + U64(head) + seq(16, _ => 0)
  }

  lemma {:induction false} HeaderFields(size: nat, count: nat, head: Address)
    ensures var s := AllocatorBytes(size, count, head);
            s[..3] == ALLOCATOR_MAGIC && s[3] == ALLOCATOR_LAYOUT_VERSION && FromLE(s[8..16]) == size && FromLE(s[16..24]) == count && FromLE(s[24..32]) == head
  {
    hide U64;
    var s := AllocatorBytes(size, count, head);
    assert s[8..16] == U64(size) && s[16..24] == U64(count) && s[24..32] == U64(head);
  }

  lemma {:induction false} ChunkIsBytes(c: Chunk)
    ensures c.next < ADDRESS_SPACE ==> AllBytes(ChunkBytes(c))
  {
    hide U64;
    FieldsFit(c.next);
    BytesJoin(CHUNK_MAGIC + [CHUNK_LAYOUT_VERSION, if c.taken then 1 else 0, 0, 0, 0], U64(c.next));
  }

  lemma {:induction false} HeaderIsBytes(size: nat, count: nat, head: Address)
    requires size < ADDRESS_SPACE && count < ADDRESS_SPACE && head < ADDRESS_SPACE
    ensures AllBytes(AllocatorBytes(size, count, head))
  {
    hide U64;
    FieldsFit(size);
    FieldsFit(count);
    FieldsFit(head);
    var magic := ALLOCATOR_MAGIC + [ALLOCATOR_LAYOUT_VERSION, 0, 0, 0, 0];
    BytesJoin(magic, U64(size));
    BytesJoin(magic + U64(size), U64(count));
    BytesJoin(magic + U64(size) + U64(count), U64(head));
    BytesJoin(magic + U64(size) + U64(count) + U64(head), seq(16, _ => 0));
  }

  /** There are no more numbers in a set than there are between its bounds. */
  lemma {:induction false} CountBetween(s: set<nat>, lo: nat, hi: nat)
    requires lo <= hi && forall x :: x in s ==> lo <= x < hi
    ensures |s| <= hi - lo
    decreases hi - lo
  {
    if lo == hi {
      assert s == {};
    } else {
      CountBetween(s - {hi - 1}, lo, hi - 1);
    }
  }

  /** Stretches of equal size that do not overlap take no more than there is. */
  lemma {:induction false} SpacedCount(s: set<nat>, size: nat, n: nat)
    requires forall x :: x in s ==> x + size <= n
    requires forall x, y :: x in s && y in s && x < y ==> x + size <= y
    ensures |s| * size <= n
  {
    if s != {} {
      var x := Greatest(s);
      SpacedCount(s - {x}, size, x);
      assert |s| == |s - {x}| + 1;
      assert (|s - {x}| + 1) * size == |s - {x}| * size + size;
    }
  }

  lemma {:induction false} Greatest(s: set<nat>) returns (x: nat)
    requires s != {}
    ensures x in s && forall y :: y in s ==> y <= x
  {
    x :| x in s;
    assert forall y :: y in s ==> y == x || y in s - {x};
    if s - {x} != {} {
      var y := Greatest(s - {x});
      x := if x < y then y else x;
    }
  }

  type Chunks = map<Address, Chunk>

  /** Chunks do not overlap, and start at `base`. */
  ghost predicate Spaced(cs: Chunks, base: nat, size: nat) {
    && (forall c :: c in cs ==> base <= c)
    && (forall c, d :: c in cs && d in cs && c < d ==> c + CHUNK_HEADER_SIZE + size <= d)
  }

  ghost predicate LinkAt(cs: Chunks, free: seq<Address>, i: nat)
    requires i < |free|
  {
    free[i] in cs && cs[free[i]] == Chunk(false, if i + 1 < |free| then free[i + 1] else NULL)
  }

  /** The free chunks are linked in the order of `free`, each once. */
  ghost predicate Linked(cs: Chunks, free: seq<Address>) {
    && 0 < |free|
    && (forall i, j :: 0 <= i < j < |free| ==> free[i] != free[j])
    && (forall i :: 0 <= i < |free| ==> LinkAt(cs, free, i))
    && (forall c :: c in cs && !cs[c].taken ==> c in free)
  }

  /** The last free chunk is the frontier: no chunk lies beyond it. */
  ghost predicate Frontier(cs: Chunks, free: seq<Address>)
    requires 0 < |free|
  {
    forall c :: c in cs ==> c <= free[|free| - 1]
  }

  /** The memory holds the header of every chunk. */
  ghost predicate Imaged(b: Bytes, cs: Chunks) {
    forall c :: c in cs ==> c + CHUNK_HEADER_SIZE <= |b| && b[c..c + CHUNK_HEADER_SIZE] == ChunkBytes(cs[c])
  }

  /** The payload addresses of the allocated chunks. */
  ghost function LiveOf(cs: Chunks): set<Address> {
    set c | c in cs && cs[c].taken :: c + CHUNK_HEADER_SIZE
  }

  /** Nothing in the given pages has changed, nor anything below `front`. */
  ghost predicate Untouched(b: Bytes, b': Bytes, front: nat, pages: set<Address>, size: nat) {
    && |b| <= |b'|
    && (forall i :: 0 <= i < front && i < |b| ==> b'[i] == b[i])
    && (forall p, i :: p in pages && p <= i < p + size && i < |b| ==> b'[i] == b[i])
  }

  lemma {:induction false} UntouchedSelf(b: Bytes, front: nat, pages: set<Address>, size: nat)
    ensures Untouched(b, b, front, pages, size)
  {
  }

  lemma {:induction false} UntouchedTwice(b: Bytes, b1: Bytes, b2: Bytes, front: nat, pages: set<Address>, size: nat)
    requires Untouched(b, b1, front, pages, size) && Untouched(b1, b2, front, pages, size)
    ensures Untouched(b, b2, front, pages, size)
  {
  }

  lemma {:induction false} UntouchedFewer(b: Bytes, b': Bytes, front: nat, pages: set<Address>, fewer: set<Address>, size: nat)
    requires Untouched(b, b', front, pages, size) && fewer <= pages
    ensures Untouched(b, b', front, fewer, size)
  {
  }

  lemma {:induction false} LiveChunk(cs: Chunks, p: Address)
    ensures p in LiveOf(cs) <==> CHUNK_HEADER_SIZE <= p && p - CHUNK_HEADER_SIZE in cs && cs[p - CHUNK_HEADER_SIZE].taken
  {
  }

  /** Writing the header of a chunk touches no other header, no page and nothing in front of the chunks. */
  lemma {:induction false} HeaderOnly(b: Bytes, b': Bytes, cs: Chunks, c: Address, ch: Chunk, front: nat, base: nat, size: nat, ps: set<Address>)
    requires Wrote(b, b', c, ChunkBytes(ch)) && c in cs && Spaced(cs, base, size) && front <= base
    requires forall p :: p in ps ==> CHUNK_HEADER_SIZE <= p && p - CHUNK_HEADER_SIZE in cs
    ensures Imaged(b, cs - {c}) ==> Imaged(b', cs - {c})
    ensures Untouched(b, b', front, ps, size)
  {
    if Imaged(b, cs - {c}) {
      forall d | d in cs - {c}
        ensures b'[d..d + CHUNK_HEADER_SIZE] == b[d..d + CHUNK_HEADER_SIZE]
      {
        ReadOther(b, b', c, ChunkBytes(ch), d, d + CHUNK_HEADER_SIZE);
      }
    }
    forall p, i | p in ps && p <= i < p + size && i < |b|
      ensures b'[i] == b[i]
    {
      var d := p - CHUNK_HEADER_SIZE;
      assert d < c ==> d + CHUNK_HEADER_SIZE + size <= c;
      assert c < d ==> c + CHUNK_HEADER_SIZE + size <= d;
    }
  }

  lemma {:induction false} ChunkSaved(b: Bytes, b': Bytes, cs: Chunks, c: Address, ch: Chunk, front: nat, base: nat, size: nat)
    requires Imaged(b, cs) && Wrote(b, b', c, ChunkBytes(ch)) && Spaced(cs[c := ch], base, size) && front <= base
    ensures Imaged(b', cs[c := ch]) && Untouched(b, b', front, LiveOf(cs[c := ch]) + LiveOf(cs), size)
  {
    hide LiveOf, Untouched, ChunkBytes;
    var cs', ps := cs[c := ch], LiveOf(cs[c := ch]) + LiveOf(cs);
    forall p | p in ps
      ensures CHUNK_HEADER_SIZE <= p && p - CHUNK_HEADER_SIZE in cs'
    {
      LiveChunk(cs, p);
      LiveChunk(cs', p);
    }
    HeaderOnly(b, b', cs', c, ch, front, base, size, ps);
    ReadBack(b, b', c, ChunkBytes(ch));
    assert Imaged(b, cs' - {c});
    forall d | d in cs'
      ensures d + CHUNK_HEADER_SIZE <= |b'| && b'[d..d + CHUNK_HEADER_SIZE] == ChunkBytes(cs'[d])
    {
      assert d == c || d in cs' - {c};
    }
  }

  /** Writing inside an allocated page touches no header. */
  lemma {:induction false} PageWritten(b: Bytes, b': Bytes, cs: Chunks, p: Address, off: nat, src: Bytes, base: nat, size: nat)
    requires Imaged(b, cs) && Spaced(cs, base, size) && p in LiveOf(cs) && off + |src| <= size && Wrote(b, b', p + off, src)
    ensures Imaged(b', cs)
  {
    hide LiveOf, ChunkBytes;
    LiveChunk(cs, p);
    forall c | c in cs
      ensures b'[c..c + CHUNK_HEADER_SIZE] == ChunkBytes(cs[c])
    {
      ReadOther(b, b', p + off, src, c, c + CHUNK_HEADER_SIZE);
    }
  }

  // ---- The free list after each operation

  ghost predicate InOrder(cs: Chunks, free: seq<Address>, base: nat, size: nat) {
    Spaced(cs, base, size) && Linked(cs, free) && Frontier(cs, free)
  }

  /** Taking a chunk, or giving one back, adds or removes its page and no other. */
  lemma {:induction false} LiveAfter(cs: Chunks, c: Address, ch: Chunk)
    ensures LiveOf(cs[c := ch]) == if ch.taken then LiveOf(cs) + {c + CHUNK_HEADER_SIZE} else LiveOf(cs) - {c + CHUNK_HEADER_SIZE}
  {
    forall p
      ensures p in LiveOf(cs[c := ch]) <==> if p == c + CHUNK_HEADER_SIZE then ch.taken else p in LiveOf(cs)
    {
      LiveChunk(cs, p);
      LiveChunk(cs[c := ch], p);
    }
  }

  /** What is free is linked, and what is linked is free. */
  lemma {:induction false} FreeOrTaken(cs: Chunks, free: seq<Address>, c: Address)
    requires Linked(cs, free) && c in cs
    ensures c in free <==> !cs[c].taken
    ensures c + CHUNK_HEADER_SIZE in LiveOf(cs) <==> cs[c].taken
  {
    LiveChunk(cs, c + CHUNK_HEADER_SIZE);
    if c in free {
      var i :| 0 <= i < |free| && free[i] == c;
      assert LinkAt(cs, free, i);
    }
  }

  lemma {:induction false} Popped(cs: Chunks, free: seq<Address>, base: nat, size: nat)
    requires InOrder(cs, free, base, size) && 1 < |free| && 0 < base
    ensures base <= free[0] && free[0] in cs && !cs[free[0]].taken && cs[free[0]].next == free[1] != NULL
    ensures InOrder(cs[free[0] := cs[free[0]].(taken := true)], free[1..], base, size)
  {
    assert LinkAt(cs, free, 0) && LinkAt(cs, free, 1);
    var c := free[0];
    var cs' := cs[c := cs[c].(taken := true)];
    var free' := free[1..];
    forall i | 0 <= i < |free'|
      ensures LinkAt(cs', free', i)
    {
      assert LinkAt(cs, free, i + 1);
    }
    forall d | d in cs' && !cs'[d].taken
      ensures d in free'
    {
      assert d in free;
    }
  }

  lemma {:induction false} Carved(cs: Chunks, free: seq<Address>, base: nat, size: nat)
    requires InOrder(cs, free, base, size) && |free| == 1
    ensures base <= free[0] && free[0] in cs && cs[free[0]] == Chunk(false, NULL)
    ensures var c, n := free[0], free[0] + (size + CHUNK_HEADER_SIZE);
            var cs1 := cs[c := Chunk(true, NULL)];
            && Spaced(cs1, base, size) && n !in cs1
            && InOrder(cs1[n := Chunk(false, NULL)], [n], base, size)
  {
    assert LinkAt(cs, free, 0);
    var c, n := free[0], free[0] + (size + CHUNK_HEADER_SIZE);
    var cs2 := cs[c := Chunk(true, NULL)][n := Chunk(false, NULL)];
    assert LinkAt(cs2, [n], 0);
    assert forall d :: d in cs && !cs[d].taken ==> d == c;
  }

  /** The head of the free list is free, whichever case it is. */
  lemma {:induction false} HeadReady(cs: Chunks, free: seq<Address>, base: nat, size: nat)
    requires InOrder(cs, free, base, size) && 0 < base
    ensures free != [] && base <= free[0] && free[0] in cs && !cs[free[0]].taken
    ensures free[0] + CHUNK_HEADER_SIZE !in LiveOf(cs)
    ensures Spaced(cs[free[0] := cs[free[0]].(taken := true)], base, size)
    ensures cs[free[0]].next != NULL ==>
              1 < |free| && cs[free[0]].next == free[1] && InOrder(cs[free[0] := cs[free[0]].(taken := true)], free[1..], base, size)
    ensures cs[free[0]].next == NULL ==>
              var n := free[0] + (size + CHUNK_HEADER_SIZE);
              var cs1 := cs[free[0] := cs[free[0]].(taken := true)];
              n !in cs1 && InOrder(cs1[n := Chunk(false, NULL)], [n], base, size)
  {
    if |free| == 1 {
      Carved(cs, free, base, size);
    } else {
      Popped(cs, free, base, size);
    }
    FreeOrTaken(cs, free, free[0]);
  }

  lemma {:induction false} Pushed(cs: Chunks, free: seq<Address>, c: Address, base: nat, size: nat)
    requires InOrder(cs, free, base, size) && c in cs && cs[c].taken
    ensures InOrder(cs[c := Chunk(false, free[0])], [c] + free, base, size)
  {
    var cs' := cs[c := Chunk(false, free[0])];
    var free' := [c] + free;
    FreeOrTaken(cs, free, c);
    forall i | 0 <= i < |free'|
      ensures LinkAt(cs', free', i)
    {
      if 0 < i {
        assert LinkAt(cs, free, i - 1);
      }
    }
    assert free'[|free'| - 1] == free[|free| - 1];
    forall d | d in cs' && !cs'[d].taken
      ensures d in free'
    {
      assert d == c || d in free;
    }
  }

  class Allocator {
    const memory: Memory
    const headerAddr: Address
    const allocationSize: nat
    var numAllocated: nat
    var freeListHead: Address

    ghost var chunks: Chunks
    ghost var free: seq<Address>

    ghost function Base(): nat {
      headerAddr + ALLOCATOR_HEADER_SIZE
    }

    ghost function Live(): set<Address>
      reads this
    {
      LiveOf(chunks)
    }

    ghost predicate Valid()
      reads this, memory
    {
      && InOrder(chunks, free, Base(), allocationSize)
      && freeListHead == free[0] && numAllocated == |Live()|
      && Imaged(memory.bytes, chunks)
      && Base() <= |memory.bytes|
      && memory.bytes[headerAddr..Base()] == AllocatorBytes(allocationSize, numAllocated, freeListHead)
      && Genuine(memory.bytes) && allocationSize < ADDRESS_SPACE
    }

    /** A new allocator: the rest of the memory from `addr` on is its own. */
    constructor (memory: Memory, addr: Address, size: nat)
      requires Genuine(memory.bytes) && size < ADDRESS_SPACE
      modifies memory
      ensures Valid() && this.memory == memory && headerAddr == addr && allocationSize == size
      ensures Live() == {} && Untouched(old(memory.bytes), memory.bytes, addr, {}, size)
    {
      this.memory, headerAddr, allocationSize := memory, addr, size;
      numAllocated, freeListHead := 0, NULL;
      new;
      Clear();
    }

    /** An allocator read back from its header. */
    constructor Load(memory: Memory, addr: Address, ghost was: Allocator)
      requires was.Valid() && was.memory == memory && was.headerAddr == addr
      ensures Valid() && this.memory == memory && headerAddr == addr && allocationSize == was.allocationSize
      ensures Live() == was.Live() && numAllocated == was.numAllocated
    {
      hide InOrder, LiveOf, Imaged;
      var s := memory.Read(addr, ALLOCATOR_HEADER_SIZE);
      HeaderFields(was.allocationSize, was.numAllocated, was.freeListHead);
      assert s[..3] == ALLOCATOR_MAGIC && s[3] == ALLOCATOR_LAYOUT_VERSION;
      this.memory, headerAddr := memory, addr;
      allocationSize, numAllocated, freeListHead := FromLE(s[8..16]), FromLE(s[16..24]), FromLE(s[24..32]);
      chunks, free := was.chunks, was.free;
    }

    /** Frees every chunk. */
    method Clear()
      requires Genuine(memory.bytes) && allocationSize < ADDRESS_SPACE
      modifies this, memory
      ensures Valid() && Live() == {}
      ensures Untouched(old(memory.bytes), memory.bytes, headerAddr, {}, allocationSize)
    {
      freeListHead := headerAddr + ALLOCATOR_HEADER_SIZE;
      ghost var b := memory.bytes;
      memory.Write(freeListHead, ChunkBytes(Chunk(false, NULL)));
      ReadBack(b, memory.bytes, freeListHead, ChunkBytes(Chunk(false, NULL)));
      ChunkIsBytes(Chunk(false, NULL));
      StillGenuine(b, memory.bytes, freeListHead, ChunkBytes(Chunk(false, NULL)));
      chunks, free := map[freeListHead := Chunk(false, NULL)], [freeListHead];
      numAllocated := 0;
      assert Live() == {};
      Save();
    }

    /** Writes the allocator's own header. */
    method Save()
      requires InOrder(chunks, free, Base(), allocationSize)
      requires freeListHead == free[0] && numAllocated == |Live()| && Imaged(memory.bytes, chunks)
      requires Genuine(memory.bytes) && allocationSize < ADDRESS_SPACE
      modifies memory
      ensures Valid() && Untouched(old(memory.bytes), memory.bytes, headerAddr, Live(), allocationSize)
    {
      hide Genuine, Writable;
      var s := AllocatorBytes(allocationSize, numAllocated, freeListHead);
      HeaderWritable();
      memory.Write(headerAddr, s);
      StillGenuine(old(memory.bytes), memory.bytes, headerAddr, s);
      ReadBack(old(memory.bytes), memory.bytes, headerAddr, s);
      forall c | c in chunks
        ensures memory.bytes[c..c + CHUNK_HEADER_SIZE] == ChunkBytes(chunks[c])
      {
        ReadOther(old(memory.bytes), memory.bytes, headerAddr, s, c, c + CHUNK_HEADER_SIZE);
      }
    }

    /** The count and the head of the list are no larger than the memory. */
    lemma HeaderWritable()
      requires InOrder(chunks, free, Base(), allocationSize) && Imaged(memory.bytes, chunks) && allocationSize < ADDRESS_SPACE
      ensures Writable(memory.bytes, AllocatorBytes(allocationSize, |Live()|, free[0]))
    {
      hide AllocatorBytes, ChunkBytes, Spaced;
      assert LinkAt(chunks, free, 0);
      if |memory.bytes| <= ADDRESS_SPACE {
        CountBetween(Live(), CHUNK_HEADER_SIZE, |memory.bytes| + 1);
        HeaderIsBytes(allocationSize, |Live()|, free[0]);
      }
    }

    /** Reads the header of a chunk. */
    method LoadChunk(c: Address) returns (ch: Chunk)
      requires Imaged(memory.bytes, chunks) && c in chunks
      ensures ch == chunks[c]
    {
      var s := memory.Read(c, CHUNK_HEADER_SIZE);
      assert s == ChunkBytes(chunks[c]);
      assert s[..3] == CHUNK_MAGIC && s[3] == CHUNK_LAYOUT_VERSION;
      assert s[8..] == U64(chunks[c].next);
      ch := Chunk(s[4] != 0, FromLE(s[8..]));
    }

    /** Writes the header of a chunk, old or new; no page and no other header is touched. */
    method SaveChunk(c: Address, ch: Chunk)
      requires Imaged(memory.bytes, chunks) && Spaced(chunks[c := ch], Base(), allocationSize)
      requires Genuine(memory.bytes) && (ch.next == NULL || ch.next in chunks)
      modifies this`chunks, memory
      ensures chunks == old(chunks)[c := ch] && Imaged(memory.bytes, chunks) && Genuine(memory.bytes)
      ensures Untouched(old(memory.bytes), memory.bytes, headerAddr, Live() + old(Live()), allocationSize)
    {
      hide Imaged, Untouched, Spaced, Wrote, LiveOf, Genuine, Writable, ChunkBytes;
      ChunkWritable(ch);
      memory.Write(c, ChunkBytes(ch));
      StillGenuine(old(memory.bytes), memory.bytes, c, ChunkBytes(ch));
      ChunkSaved(old(memory.bytes), memory.bytes, chunks, c, ch, headerAddr, Base(), allocationSize);
      chunks := chunks[c := ch];
    }

    /** A chunk that is linked to lies within the memory. */
    lemma ChunkWritable(ch: Chunk)
      requires Imaged(memory.bytes, chunks) && (ch.next == NULL || ch.next in chunks)
      ensures Writable(memory.bytes, ChunkBytes(ch))
    {
      hide ChunkBytes;
      ChunkIsBytes(ch);
    }

    /** Allocated pages lie apart, behind the header and within the memory. */
    lemma LiveApart()
      requires Valid()
      ensures forall p :: p in Live() ==> Base() < p && p + allocationSize <= |memory.bytes|
      ensures forall p, q :: p in Live() && q in Live() && p < q ==> p + allocationSize <= q
    {
      forall p | p in Live()
        ensures Base() < p && p + allocationSize <= |memory.bytes|
      {
        LiveChunk(chunks, p);
        var c, last := p - CHUNK_HEADER_SIZE, free[|free| - 1];
        FreeOrTaken(chunks, free, c);
        assert LinkAt(chunks, free, |free| - 1);
        assert c < last;
      }
      forall p, q | p in Live() && q in Live() && p < q
        ensures p + allocationSize <= q
      {
        LiveChunk(chunks, p);
        LiveChunk(chunks, q);
      }
    }

    /** There is no more room for chunks than the memory has. */
    lemma LiveCount()
      requires Valid()
      ensures |Live()| * allocationSize <= |memory.bytes|
    {
      hide LiveOf;
      LiveApart();
      SpacedCount(Live(), allocationSize, |memory.bytes|);
    }

    lemma Spread()
      requires Valid()
      ensures Spaced(chunks, Base(), allocationSize)
    {
    }

    /** Writes inside an allocated page. */
    method WritePage(p: Address, off: nat, src: Bytes)
      requires Valid() && p in Live() && off + |src| <= allocationSize && Writable(memory.bytes, src)
      modifies memory
      ensures Valid() && Wrote(old(memory.bytes), memory.bytes, p + off, src)
      ensures Untouched(old(memory.bytes), memory.bytes, headerAddr, Live() - {p}, allocationSize)
    {
      hide LiveOf, InOrder, AllocatorBytes, ChunkBytes, Genuine, Writable;
      LiveApart();
      Spread();
      ghost var b := memory.bytes;
      memory.Write(p + off, src);
      StillGenuine(b, memory.bytes, p + off, src);
      PageWritten(b, memory.bytes, chunks, p, off, src, Base(), allocationSize);
      ReadOther(b, memory.bytes, p + off, src, headerAddr, Base());
    }

    /** Writes in front of the allocator. */
    method WriteFront(src: Bytes)
      requires Valid() && |src| <= headerAddr && Writable(memory.bytes, src)
      modifies memory
      ensures Valid() && Wrote(old(memory.bytes), memory.bytes, 0, src)
      ensures Untouched(old(memory.bytes), memory.bytes, 0, Live(), allocationSize)
    {
      hide LiveOf, InOrder, AllocatorBytes, ChunkBytes, Genuine, Writable;
      LiveApart();
      Spread();
      ghost var b := memory.bytes;
      memory.Write(0, src);
      StillGenuine(b, memory.bytes, 0, src);
      forall c | c in chunks
        ensures memory.bytes[c..c + CHUNK_HEADER_SIZE] == ChunkBytes(chunks[c])
      {
        ReadOther(b, memory.bytes, 0, src, c, c + CHUNK_HEADER_SIZE);
      }
      ReadOther(b, memory.bytes, 0, src, headerAddr, Base());
    }

    /** A chunk nobody holds: the first free one, with a new frontier behind it if it was the last. */
    method Allocate() returns (a: Address)
      requires Valid()
      modifies this, memory
      ensures Valid()
      ensures a !in old(Live()) && Live() == old(Live()) + {a} && Base() < a
      ensures Untouched(old(memory.bytes), memory.bytes, headerAddr, old(Live()), allocationSize)
    {
      hide Linked, Spaced, Frontier, Imaged, Untouched, LiveOf, Genuine, AllocatorBytes, ChunkBytes;
      ghost var b, live := memory.bytes, Live();
      NextFree();
      HeadReady(chunks, free, Base(), allocationSize);
      var c := freeListHead;
      var chunk := LoadChunk(c);
      assert !chunk.taken;
      LiveAfter(chunks, c, chunk.(taken := true));
      SaveChunk(c, chunk.(taken := true));
      UntouchedFewer(b, memory.bytes, headerAddr, Live() + live, live, allocationSize);
      if chunk.next != NULL {
        freeListHead := chunk.next;
        free := free[1..];
      } else {
        freeListHead := Carve(freeListHead + (allocationSize + CHUNK_HEADER_SIZE), b, live);
      }
      numAllocated := numAllocated + 1;
      a := c + CHUNK_HEADER_SIZE;
      ghost var b1 := memory.bytes;
      Save();
      UntouchedFewer(b1, memory.bytes, headerAddr, Live(), live, allocationSize);
      UntouchedTwice(b, b1, memory.bytes, headerAddr, live, allocationSize);
    }

    /** Writes the header of a new frontier chunk. */
    method Carve(n: Address, ghost b: Bytes, ghost live: set<Address>) returns (head: Address)
      requires Imaged(memory.bytes, chunks) && n !in chunks && InOrder(chunks[n := Chunk(false, NULL)], [n], Base(), allocationSize)
      requires Untouched(b, memory.bytes, headerAddr, live, allocationSize) && live <= Live() && Genuine(memory.bytes)
      modifies this`chunks, this`free, memory
      ensures head == n && chunks == old(chunks)[n := Chunk(false, NULL)] && free == [n]
      ensures Live() == old(Live()) && Imaged(memory.bytes, chunks) && Genuine(memory.bytes)
      ensures Untouched(b, memory.bytes, headerAddr, live, allocationSize)
    {
      hide Linked, Spaced, Frontier, Imaged, Untouched, LiveOf, Genuine;
      ghost var b1 := memory.bytes;
      head := n;
      LiveAfter(chunks, n, Chunk(false, NULL));
      LiveNew(n);
      SaveChunk(n, Chunk(false, NULL));
      UntouchedFewer(b1, memory.bytes, headerAddr, Live() + old(Live()), live, allocationSize);
      UntouchedTwice(b, b1, memory.bytes, headerAddr, live, allocationSize);
      free := [n];
    }

    /** The list stays within the chunks. */
    lemma NextFree()
      requires InOrder(chunks, free, Base(), allocationSize)
      ensures free[0] in chunks && (chunks[free[0]].next == NULL || chunks[free[0]].next in chunks)
    {
      assert LinkAt(chunks, free, 0);
      assert 1 < |free| ==> LinkAt(chunks, free, 1);
    }

    lemma LiveNew(n: Address)
      requires n !in chunks
      ensures n + CHUNK_HEADER_SIZE !in Live()
    {
    }

    /** Gives a chunk back. */
    method Deallocate(a: Address)
      requires Valid() && a in Live()
      modifies this, memory
      ensures Valid() && Live() == old(Live()) - {a}
      ensures Untouched(old(memory.bytes), memory.bytes, headerAddr, Live(), allocationSize)
    {
      hide Linked, Spaced, Frontier, Imaged, Untouched, LiveOf, Genuine;
      LiveChunk(chunks, a);
      NextFree();
      ghost var b, live := memory.bytes, Live();
      var c := a - CHUNK_HEADER_SIZE;
      var chunk := LoadChunk(c);
      assert chunk.taken;
      Pushed(chunks, free, c, Base(), allocationSize);
      LiveAfter(chunks, c, Chunk(false, freeListHead));
      SaveChunk(c, Chunk(false, freeListHead));
      UntouchedFewer(b, memory.bytes, headerAddr, Live() + live, Live(), allocationSize);
      free := [c] + free;
      freeListHead := c;
      numAllocated := numAllocated - 1;
      ghost var b1 := memory.bytes;
      Save();
      UntouchedTwice(b, b1, memory.bytes, headerAddr, Live(), allocationSize);
    }
  }
}
