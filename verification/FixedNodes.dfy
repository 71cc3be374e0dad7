/** V1 nodes: every entry has a slot of fixed size, and the whole node one page. */
module FixedNodes {
  import opened Types
  import opened Trees
  import opened Layout
  import opened Memories
  import opened Allocators
  import opened Paging
  import opened Headers

  function SlotSize(m: Room): nat {
    4 + m.key + (4 + m.value)
  }

  /** Where slot `i` begins, from the start of the node; the children follow the last slot in use. */
  function SlotAt(m: Room, i: nat): nat {
    7 + i * SlotSize(m)
  }

  function FixedHeader(kind: NodeType, n: nat): (s: Bytes)
    ensures |s| == 7
  {
    NODE_MAGIC + [1, if kind.Leaf? then 0 else 1] + U16(n)
  }

  lemma {:induction false} SlotsInOrder(m: Room, i: nat, j: nat)
    requires i < j
    ensures SlotAt(m, i) + SlotSize(m) <= SlotAt(m, j) && 7 <= SlotAt(m, i)
    ensures SlotAt(m, i + 1) == SlotAt(m, i) + SlotSize(m)
  {
    var d := j - i - 1;
    assert j * SlotSize(m) == i * SlotSize(m) + SlotSize(m) + d * SlotSize(m);
  }

  /** A node with its children fits the page, and a full one fills it. */
  lemma {:induction false} NodeInPage(m: Room, n: nat, k: nat)
    requires n <= CAPACITY && k <= CAPACITY + 1
    ensures SlotAt(m, n) + 8 * k <= MaxNodeSize(m.key, m.value)
    ensures n == CAPACITY && k == CAPACITY + 1 ==> SlotAt(m, n) + 8 * k == MaxNodeSize(m.key, m.value)
  {
    if n < CAPACITY {
      SlotsInOrder(m, n, CAPACITY);
    }
  }

  // ---- What a page holds

  predicate BytesAt(b: Bytes, off: nat, s: Bytes) {
    off + |s| <= |b| && b[off..off + |s|] == s
  }

  predicate SlotHolds(c: Codec, m: Room, b: Bytes, off: nat, e: Entry) {
    && BytesAt(b, off, U32(|c.enc(e.key)|)) && BytesAt(b, off + 4, c.enc(e.key))
    && BytesAt(b, off + 4 + m.key, U32(|e.value|)) && BytesAt(b, off + 4 + m.key + 4, e.value)
  }

  /** What has been written of a node to a page that holds `b`: the header, `i` slots and `j` children. */
  ghost predicate Written(c: Codec, m: Room, b: Bytes, r: NodeRec, i: nat, j: nat) {
    && !r.Blank? && i <= |r.entries| && j <= |r.children|
    && BytesAt(b, 0, FixedHeader(r.kind, |r.entries|))
    && (forall k :: 0 <= k < i ==> SlotHolds(c, m, b, SlotAt(m, k), r.entries[k]))
    && (forall k :: 0 <= k < j ==> BytesAt(b, SlotAt(m, |r.entries|) + 8 * k, U64(r.children[k])))
  }

  /** The page holds the node, whatever the bytes are that no slot uses. */
  ghost predicate ImageHolds(c: Codec, m: Room, b: Bytes, r: NodeRec) {
    !r.Blank? && Written(c, m, b, r, |r.entries|, |r.children|)
  }

  ghost predicate HasSlots(c: Codec, ps: nat) {
    c.slots.Some? && ps == MaxNodeSize(c.slots.value.key, c.slots.value.value)
  }

  /** A V1 node: a page divided in slots, as large as the room in the slots asks for. */
  ghost predicate Slotted(c: Codec, ps: nat, r: NodeRec) {
    r.FixedRec? && HasSlots(c, ps) && |r.image| == ps && ImageHolds(c, c.slots.value, r.image, r)
  }

  ghost predicate FitsSlot(c: Codec, m: Room, e: Entry) {
    && |c.enc(e.key)| <= m.key && |e.value| <= m.value
    && |c.enc(e.key)| <= MAX_LENGTH && |e.value| <= MAX_LENGTH && AllBytes(c.enc(e.key)) && AllBytes(e.value)
  }

  /** Nothing but `[lo, hi)` has changed. */
  ghost predicate Confined(b: Bytes, b': Bytes, lo: nat, hi: nat) {
    |b| == |b'| && forall i :: 0 <= i < |b| && !(lo <= i < hi) ==> b'[i] == b[i]
  }

  lemma {:induction false} Together(b: Bytes, b': Bytes, b'': Bytes, lo: nat, mid: nat, hi: nat)
    requires Confined(b, b', lo, mid) && Confined(b', b'', mid, hi) && lo <= mid <= hi
    ensures Confined(b, b'', lo, hi)
  {
  }

  lemma {:induction false} Wider(b: Bytes, b': Bytes, lo: nat, hi: nat, more: nat)
    requires Confined(b, b', lo, hi) && hi <= more
    ensures Confined(b, b', lo, more)
  {
  }

  lemma {:induction false} StillAt(b: Bytes, b': Bytes, lo: nat, hi: nat, at: nat, s: Bytes)
    requires Confined(b, b', lo, hi) && BytesAt(b, at, s) && (at + |s| <= lo || hi <= at)
    ensures BytesAt(b', at, s)
  {
    assert b'[at..at + |s|] == b[at..at + |s|];
  }

  lemma {:induction false} SlotKept(c: Codec, m: Room, b: Bytes, b': Bytes, lo: nat, hi: nat, at: nat, e: Entry)
    requires Confined(b, b', lo, hi) && SlotHolds(c, m, b, at, e) && FitsSlot(c, m, e) && at + SlotSize(m) <= lo
    ensures SlotHolds(c, m, b', at, e)
  {
    hide BytesAt, Confined;
    StillAt(b, b', lo, hi, at, U32(|c.enc(e.key)|));
    StillAt(b, b', lo, hi, at + 4, c.enc(e.key));
    StillAt(b, b', lo, hi, at + 4 + m.key, U32(|e.value|));
    StillAt(b, b', lo, hi, at + 4 + m.key + 4, e.value);
  }

  ghost predicate AllFitSlots(c: Codec, m: Room, es: seq<Entry>) {
    forall k :: 0 <= k < |es| ==> FitsSlot(c, m, es[k])
  }

  /** A change behind what has been written so far leaves that as it is. */
  lemma {:induction false} WrittenStays(c: Codec, m: Room, b: Bytes, b': Bytes, r: NodeRec, i: nat, j: nat, lo: nat, hi: nat)
    requires Written(c, m, b, r, i, j) && AllFitSlots(c, m, r.entries) && Confined(b, b', lo, hi)
    requires SlotAt(m, i) <= lo && (0 < j ==> SlotAt(m, |r.entries|) + 8 * j <= lo)
    ensures Written(c, m, b', r, i, j)
  {
    hide SlotHolds, BytesAt, Confined, SlotAt, SlotSize, FixedHeader, FitsSlot;
    SlotsInOrder(m, i, i + 1);
    StillAt(b, b', lo, hi, 0, FixedHeader(r.kind, |r.entries|));
    forall k | 0 <= k < i
      ensures SlotHolds(c, m, b', SlotAt(m, k), r.entries[k])
    {
      SlotsInOrder(m, k, i);
      SlotKept(c, m, b, b', lo, hi, SlotAt(m, k), r.entries[k]);
    }
    forall k | 0 <= k < j
      ensures BytesAt(b', SlotAt(m, |r.entries|) + 8 * k, U64(r.children[k]))
    {
      StillAt(b, b', lo, hi, SlotAt(m, |r.entries|) + 8 * k, U64(r.children[k]));
    }
  }

  // ---- Saving

  ghost function Image(b: Bytes, a: Address, ps: nat): Bytes {
    if a + ps <= |b| then b[a..a + ps] else []
  }

  /** The page at `a` is being written; the other pages are as they were when memory held `b`. */
  ghost predicate Saving(al: Allocator, a: Address, b: Bytes, others: set<Address>)
    reads al, al.memory
  {
    && al.Valid() && a in al.Live() && others <= al.Live() - {a} && a + al.allocationSize <= |al.memory.bytes|
    && Untouched(b, al.memory.bytes, al.headerAddr, others, al.allocationSize)
  }

  ghost function ImageOf(al: Allocator, a: Address): Bytes
    reads al, al.memory
  {
    Image(al.memory.bytes, a, al.allocationSize)
  }

  lemma {:induction false} ImageWrote(b: Bytes, b': Bytes, a: Address, ps: nat, off: nat, src: Bytes)
    requires Wrote(b, b', a + off, src) && a + ps <= |b| && off + |src| <= ps
    ensures a + ps <= |b'| && |Image(b', a, ps)| == ps
    ensures BytesAt(Image(b', a, ps), off, src) && Confined(Image(b, a, ps), Image(b', a, ps), off, off + |src|)
  {
    var s := Image(b', a, ps);
    assert forall i :: 0 <= i < |src| ==> s[off..off + |src|][i] == b'[a + off + i] == src[i];
    assert s[off..off + |src|] == src;
  }

  lemma {:induction false} NoSmaller(b: Bytes, b': Bytes, front: nat, pages: set<Address>, size: nat)
    requires Untouched(b, b', front, pages, size)
    ensures |b| <= |b'|
  {
  }

  /** Writes one field. */
  method PutField(al: Allocator, a: Address, off: nat, src: Bytes, ghost b: Bytes, ghost others: set<Address>)
    requires Saving(al, a, b, others) && off + |src| <= al.allocationSize && Writable(b, src)
    modifies al.memory
    ensures Saving(al, a, b, others) && BytesAt(ImageOf(al, a), off, src)
    ensures Confined(old(ImageOf(al, a)), ImageOf(al, a), off, off + |src|)
  {
    hide Allocator.Valid, LiveOf, Untouched, BytesAt, Confined, Wrote, Writable;
    ghost var b' := al.memory.bytes;
    NoSmaller(b, b', al.headerAddr, others, al.allocationSize);
    WritableLater(b, b', src);
    al.WritePage(a, off, src);
    ImageWrote(b', al.memory.bytes, a, al.allocationSize, off, src);
    UntouchedFewer(b', al.memory.bytes, al.headerAddr, al.Live() - {a}, others, al.allocationSize);
    UntouchedTwice(b, b', al.memory.bytes, al.headerAddr, others, al.allocationSize);
  }

  /** Writes one slot. */
  method WriteSlot(al: Allocator, a: Address, c: Codec, m: Room, at: nat, e: Entry, ghost b: Bytes, ghost others: set<Address>)
    requires Saving(al, a, b, others) && at + SlotSize(m) <= al.allocationSize && FitsSlot(c, m, e)
    modifies al.memory
    ensures Saving(al, a, b, others) && SlotHolds(c, m, ImageOf(al, a), at, e)
    ensures Confined(old(ImageOf(al, a)), ImageOf(al, a), at, at + SlotSize(m))
  {
    hide BytesAt, Confined, Saving, Image, U32;
    var k := c.enc(e.key);
    FieldsFit(|k|);
    FieldsFit(|e.value|);
    ghost var b0 := ImageOf(al, a);
    PutField(al, a, at, U32(|k|), b, others);
    ghost var b1 := ImageOf(al, a);
    PutField(al, a, at + 4, k, b, others);
    ghost var b2 := ImageOf(al, a);
    PutField(al, a, at + 4 + m.key, U32(|e.value|), b, others);
    ghost var b3 := ImageOf(al, a);
    PutField(al, a, at + 4 + m.key + 4, e.value, b, others);
    SlotParts(c, m, b0, b1, b2, b3, ImageOf(al, a), at, e);
  }

  lemma {:induction false} SlotParts(c: Codec, m: Room, b0: Bytes, b1: Bytes, b2: Bytes, b3: Bytes, b4: Bytes, at: nat, e: Entry)
    requires FitsSlot(c, m, e)
    requires BytesAt(b1, at, U32(|c.enc(e.key)|)) && Confined(b0, b1, at, at + 4)
    requires BytesAt(b2, at + 4, c.enc(e.key)) && Confined(b1, b2, at + 4, at + 4 + |c.enc(e.key)|)
    requires BytesAt(b3, at + 4 + m.key, U32(|e.value|)) && Confined(b2, b3, at + 4 + m.key, at + 4 + m.key + 4)
    requires BytesAt(b4, at + 4 + m.key + 4, e.value) && Confined(b3, b4, at + 4 + m.key + 4, at + 4 + m.key + 4 + |e.value|)
    ensures SlotHolds(c, m, b4, at, e) && Confined(b0, b4, at, at + SlotSize(m))
  {
    hide BytesAt, Confined;
    var k, p, q := c.enc(e.key), at + 4 + m.key, at + 4 + m.key + 4;
    StillAt(b1, b2, at + 4, at + 4 + |k|, at, U32(|k|));
    StillAt(b2, b3, p, q, at, U32(|k|));
    StillAt(b2, b3, p, q, at + 4, k);
    StillAt(b3, b4, q, q + |e.value|, at, U32(|k|));
    StillAt(b3, b4, q, q + |e.value|, at + 4, k);
    StillAt(b3, b4, q, q + |e.value|, p, U32(|e.value|));
    Wider(b1, b2, at + 4, at + 4 + |k|, p);
    Wider(b3, b4, q, q + |e.value|, q + m.value);
    Together(b0, b1, b2, at, at + 4, p);
    Together(b0, b2, b3, at, p, q);
    Together(b0, b3, b4, at, q, q + m.value);
  }

  /** Saves a node to its page, from entries that are all in memory. What is outside the page stays as it is. */
  method SaveSlots(al: Allocator, a: Address, c: Codec, m: Room, kind: NodeType, entries: seq<Entry>, children: seq<Address>,
                   ghost b: Bytes, ghost others: set<Address>)
    requires Saving(al, a, b, others) && al.allocationSize == MaxNodeSize(m.key, m.value)
    requires AllFitSlots(c, m, entries) && |entries| <= CAPACITY && |children| <= CAPACITY + 1
    requires forall j :: 0 <= j < |children| ==> children[j] < |b|
    modifies al.memory
    ensures Saving(al, a, b, others) && ImageHolds(c, m, ImageOf(al, a), FixedRec(kind, entries, children, ImageOf(al, a)))
  {
    hide Confined, BytesAt, Saving, Image, FixedHeader, SlotAt, SlotHolds, SlotSize, MaxNodeSize, Written, AllFitSlots, U64, Writable;
    ghost var r := FixedRec(kind, entries, children, []);
    NodeInPage(m, |entries|, |children|);
    Start(m);
    HeaderWritable(b, kind, |entries|);
    PutField(al, a, 0, FixedHeader(kind, |entries|), b, others);
    HeaderWritten(c, m, ImageOf(al, a), r);
    var offset := 7;
    for i := 0 to |entries|
      invariant offset == SlotAt(m, i) && Written(c, m, ImageOf(al, a), r, i, 0) && Saving(al, a, b, others)
    {
      ghost var b' := ImageOf(al, a);
      OneFits(c, m, entries, i);
      SlotEnd(m, i, |entries|);
      WriteSlot(al, a, c, m, offset, entries[i], b, others);
      WrittenStays(c, m, b', ImageOf(al, a), r, i, 0, offset, offset + SlotSize(m));
      NextSlot(c, m, ImageOf(al, a), r, i);
      offset := offset + SlotSize(m);
    }
    for j := 0 to |children|
      invariant offset == SlotAt(m, |entries|) + 8 * j && Written(c, m, ImageOf(al, a), r, |entries|, j) && Saving(al, a, b, others)
    {
      ghost var b' := ImageOf(al, a);
      AddressWritable(b, children[j]);
      PutField(al, a, offset, U64(children[j]), b, others);
      WrittenStays(c, m, b', ImageOf(al, a), r, |entries|, j, offset, offset + 8);
      NextChild(c, m, ImageOf(al, a), r, j);
      offset := offset + 8;
    }
    AllWritten(c, m, ImageOf(al, a), r);
  }

  lemma {:induction false} HeaderWritable(b: Bytes, kind: NodeType, n: nat)
    requires n < 0x1_0000
    ensures Writable(b, FixedHeader(kind, n))
  {
    hide U16;
    FieldsFit(n);
    BytesJoin(NODE_MAGIC + [1, if kind.Leaf? then 0 else 1], U16(n));
  }

  lemma {:induction false} AddressWritable(b: Bytes, a: Address)
    requires a < |b|
    ensures Writable(b, U64(a))
  {
    hide U64;
    FieldsFit(a);
  }

  lemma {:induction false} Start(m: Room)
    ensures SlotAt(m, 0) == 7 <= MaxNodeSize(m.key, m.value)
  {
  }

  lemma {:induction false} OneFits(c: Codec, m: Room, es: seq<Entry>, i: nat)
    requires AllFitSlots(c, m, es) && i < |es|
    ensures FitsSlot(c, m, es[i])
  {
  }

  lemma {:induction false} SlotEnd(m: Room, i: nat, n: nat)
    requires i < n <= CAPACITY
    ensures SlotAt(m, i) + SlotSize(m) == SlotAt(m, i + 1) <= MaxNodeSize(m.key, m.value)
  {
    SlotsInOrder(m, i, i + 1);
    NodeInPage(m, i + 1, 0);
  }

  lemma {:induction false} HeaderWritten(c: Codec, m: Room, b: Bytes, r: NodeRec)
    requires !r.Blank? && BytesAt(b, 0, FixedHeader(r.kind, |r.entries|))
    ensures Written(c, m, b, r, 0, 0)
  {
  }

  lemma {:induction false} NextSlot(c: Codec, m: Room, b: Bytes, r: NodeRec, i: nat)
    requires Written(c, m, b, r, i, 0) && i < |r.entries| && SlotHolds(c, m, b, SlotAt(m, i), r.entries[i])
    ensures Written(c, m, b, r, i + 1, 0)
  {
  }

  lemma {:induction false} NextChild(c: Codec, m: Room, b: Bytes, r: NodeRec, j: nat)
    requires !r.Blank? && Written(c, m, b, r, |r.entries|, j) && j < |r.children|
    requires BytesAt(b, SlotAt(m, |r.entries|) + 8 * j, U64(r.children[j]))
    ensures Written(c, m, b, r, |r.entries|, j + 1)
  {
  }

  lemma {:induction false} AllWritten(c: Codec, m: Room, b: Bytes, r: NodeRec)
    requires r.FixedRec? && Written(c, m, b, r, |r.entries|, |r.children|)
    ensures ImageHolds(c, m, b, r.(image := b))
  {
  }

  // ---- Loading

  /** A reference that reads as the entry does. */
  ghost predicate Taken(c: Codec, r: NodeRec, l: LazyEntry, e: Entry) {
    InPages(c, r, l) && KeyOf(c, r, l.key) == e.key && ValueOf(c, r, l.value) == e.value
  }

  /** Loads a node from its page: entries by reference, children at once. */
  method LoadSlots(mem: Memory, a: Address, c: Codec, m: Room, ghost r: NodeRec)
    returns (kind: NodeType, es: seq<LazyEntry>, children: seq<Address>)
    requires r.FixedRec? && Sound(c) && Counted(r) && BytesAt(mem.bytes, a, r.image) && ImageHolds(c, m, r.image, r)
    requires AllFit(c, r.entries)
    ensures kind == r.kind && children == r.children && |es| == |r.entries|
    ensures forall i :: 0 <= i < |es| ==> Taken(c, r, es[i], r.entries[i])
  {
    hide BytesAt, FixedHeader, SlotAt, SlotHolds, SlotSize, Counted, U16, Taken;
    HeaderRead(r.image, r.kind, |r.entries|);
    ReadImage(mem.bytes, a, r.image, 0, 7);
    var header := mem.Read(a, 7);
    var count := FromLE(header[5..7]);
    kind := if header[4] == 0 then Leaf else Internal;
    var offset;
    es, offset := ReadSlots(mem, a, c, m, count, r);
    Count(r);
    children := [];
    if kind.Internal? {
      for j := 0 to count + 1
        invariant offset == SlotAt(m, count) + 8 * j && children == r.children[..j]
      {
        ChildRead(r.image, offset, r.children[j]);
        ReadImage(mem.bytes, a, r.image, offset, 8);
        var s := mem.Read(a + offset, 8);
        children := children + [FromLE(s)];
        offset := offset + 8;
      }
    }
  }

  /** The places of the keys and values of a node. */
  method ReadSlots(mem: Memory, a: Address, c: Codec, m: Room, count: nat, ghost r: NodeRec) returns (es: seq<LazyEntry>, offset: nat)
    requires r.FixedRec? && Sound(c) && BytesAt(mem.bytes, a, r.image) && ImageHolds(c, m, r.image, r) && count == |r.entries|
    requires AllFit(c, r.entries)
    ensures |es| == |r.entries| && offset == SlotAt(m, count)
    ensures forall i :: 0 <= i < |es| ==> Taken(c, r, es[i], r.entries[i])
  {
    hide BytesAt, FixedHeader, SlotAt, SlotHolds, SlotSize, Taken, Sound;
    es, offset := [], 7;
    Start(m);
    for i := 0 to count
      invariant offset == SlotAt(m, i) && |es| == i
      invariant forall k :: 0 <= k < i ==> Taken(c, r, es[k], r.entries[k])
    {
      SlotRead(c, m, r, offset, r.entries[i]);
      SlotsInOrder(m, i, i + 1);
      ReadImage(mem.bytes, a, r.image, offset, 4);
      ReadImage(mem.bytes, a, r.image, offset + 4 + m.key, 4);
      var key := mem.Read(a + offset, 4);
      var value := mem.Read(a + offset + 4 + m.key, 4);
      es := es + [LazyEntry(ByRef(offset, FromLE(key), None), ByRef(offset + 4 + m.key, FromLE(value), None))];
      offset := offset + SlotSize(m);
    }
  }

  lemma {:induction false} ReadImage(b: Bytes, a: Address, image: Bytes, off: nat, n: nat)
    requires BytesAt(b, a, image) && off + n <= |image|
    ensures a + off + n <= |b| && b[a + off..a + off + n] == image[off..off + n]
  {
    var page := b[a..a + |image|];
    var r, t := page[off..off + n], b[a + off..a + off + n];
    assert forall i :: 0 <= i < n ==> r[i] == t[i];
  }

  lemma {:induction false} HeaderRead(b: Bytes, kind: NodeType, n: nat)
    requires BytesAt(b, 0, FixedHeader(kind, n))
    ensures 7 <= |b| && b[0..7][..3] == NODE_MAGIC && FromLE(b[0..7][5..7]) == n && (b[0..7][4] == 0 <==> kind.Leaf?) && b[0..7][3] == 1
  {
    var s := FixedHeader(kind, n);
    assert s[5..7] == U16(n);
  }

  lemma {:induction false} ChildRead(b: Bytes, at: nat, child: Address)
    requires BytesAt(b, at, U64(child))
    ensures at + 8 <= |b| && FromLE(b[at..at + 8]) == child
  {
  }

  lemma {:induction false} Count(r: NodeRec)
    requires Counted(r)
    ensures |r.children| == if r.kind.Internal? then |r.entries| + 1 else 0
  {
  }

  lemma {:induction false} SlotRead(c: Codec, m: Room, r: NodeRec, off: nat, e: Entry)
    requires r.FixedRec? && Sound(c) && c.has(e.key) && SlotHolds(c, m, r.image, off, e)
    ensures off + 4 + m.key + 4 <= |r.image|
    ensures Taken(c, r, LazyEntry(ByRef(off, FromLE(r.image[off..off + 4]), None),
                                  ByRef(off + 4 + m.key, FromLE(r.image[off + 4 + m.key..off + 4 + m.key + 4]), None)), e)
  {
    hide U32, FromLE;
    SizeRead(r.image, off, |c.enc(e.key)|);
    SizeRead(r.image, off + 4 + m.key, |e.value|);
  }

  lemma {:induction false} SizeRead(b: Bytes, off: nat, n: nat)
    requires BytesAt(b, off, U32(n))
    ensures off + 4 <= |b| && FromLE(b[off..off + 4]) == n
  {
  }

  /** A page holds one node only, whatever its unused bytes are. */
  lemma {:induction false} OneNode(c: Codec, m: Room, b: Bytes, r: NodeRec, r': NodeRec)
    requires r.FixedRec? && r'.FixedRec? && r.image == b == r'.image
    requires Sound(c) && Counted(r) && Counted(r') && ImageHolds(c, m, b, r) && ImageHolds(c, m, b, r')
    requires AllFit(c, r.entries) && AllFit(c, r'.entries)
    ensures r == r'
  {
    hide BytesAt, FixedHeader, SlotAt, SlotHolds, SlotSize;
    HeaderRead(b, r.kind, |r.entries|);
    HeaderRead(b, r'.kind, |r'.entries|);
    forall i | 0 <= i < |r.entries|
      ensures r.entries[i] == r'.entries[i]
    {
      SlotRead(c, m, r, SlotAt(m, i), r.entries[i]);
      SlotRead(c, m, r, SlotAt(m, i), r'.entries[i]);
    }
    forall j | 0 <= j < |r.children|
      ensures r.children[j] == r'.children[j]
    {
      ChildRead(b, SlotAt(m, |r.entries|) + 8 * j, r.children[j]);
      ChildRead(b, SlotAt(m, |r.entries|) + 8 * j, r'.children[j]);
    }
  }
}
