/** The byte layout of a V2 node, as a value: what the pages of a node hold, read as one string. What a V1 node
    holds is said in `FixedNodes`. */
module Layout {
  import opened Types

  // ---- Little-endian integers

  function ToLE(n: nat, w: nat): (s: Bytes)
    requires 1 <= w
    ensures |s| == w
    ensures FromLE(s) == n
  {
    if w == 1 then [n] else [n % 256] + ToLE(n / 256, w - 1)
  }

  function FromLE(s: Bytes): nat
    requires 1 <= |s|
  {
    if |s| == 1 then s[0] else s[0] + 256 * FromLE(s[1..])
  }

  function U64(n: nat): (s: Bytes)
    ensures |s| == 8 && FromLE(s) == n
  {
    ToLE(n, 8)
  }

  function U32(n: nat): (s: Bytes)
    ensures |s| == 4 && FromLE(s) == n
  {
    ToLE(n, 4)
  }

  function U16(n: nat): (s: Bytes)
    ensures |s| == 2 && FromLE(s) == n
  {
    ToLE(n, 2)
  }

  function Pow256(w: nat): nat {
    if w == 0 then 1 else 256 * Pow256(w - 1)
  }

  /** An integer field holds bytes exactly if the integer fits its width. */
  lemma {:induction false} FieldFits(n: nat, w: nat)
    requires 1 <= w
    ensures AllBytes(ToLE(n, w)) <==> n < Pow256(w)
  {
    if w == 1 {
      assert Pow256(1) == 256 * Pow256(0);
    } else {
      var s, t := ToLE(n, w), ToLE(n / 256, w - 1);
      FieldFits(n / 256, w - 1);
      assert s == [n % 256] + t && forall i :: 0 <= i < |t| ==> s[i + 1] == t[i];
    }
  }

  lemma {:induction false} FieldsFit(n: nat)
    ensures AllBytes(U64(n)) <==> n < ADDRESS_SPACE
    ensures AllBytes(U32(n)) <==> n <= MAX_LENGTH
    ensures AllBytes(U16(n)) <==> n < 0x1_0000
  {
    FieldFits(n, 8);
    FieldFits(n, 4);
    FieldFits(n, 2);
    assert Pow256(2) == 0x1_0000 && Pow256(4) == 0x1_0000_0000 && Pow256(8) == ADDRESS_SPACE;
  }

  /** The widths of the fields that say a size. */
  ghost predicate Width(w: nat) {
    w == 1 || w == 2 || w == 4
  }

  /** The least of them that can say it. */
  ghost predicate LeastWidth(w: nat, n: nat) {
    Width(w) && n < Pow256(w) && forall v :: Width(v) && n < Pow256(v) ==> w <= v
  }

  lemma {:induction false} Powers()
    ensures Pow256(1) == 0x100 && Pow256(2) == 0x1_0000 && Pow256(4) == 0x1_0000_0000
  {
    assert Pow256(2) == 256 * Pow256(1);
    assert Pow256(4) == 256 * Pow256(3) && Pow256(3) == 256 * Pow256(2);
  }

  /** The sum of the first `i` digits, each by its weight. */
  ghost function Weighed(s: Bytes, i: nat): nat
    requires i <= |s|
  {
    if i == 0 then 0 else Weighed(s, i - 1) + s[i - 1] * Pow256(i - 1)
  }

  lemma {:induction false} WeighedRest(s: Bytes, i: nat)
    requires 1 <= i <= |s|
    ensures Weighed(s, i) == s[0] + 256 * Weighed(s[1..], i - 1)
    decreases i
  {
    if 1 < i {
      WeighedRest(s, i - 1);
      var x, p := s[i - 1], Pow256(i - 2);
      assert x * (256 * p) == 256 * (x * p);
    } else {
      assert Weighed(s, 1) == Weighed(s, 0) + s[0] * Pow256(0);
    }
  }

  /** Digit `i` of a field weighs 256 to the power of `i`: the lowest comes first. */
  lemma {:induction false} LowestFirst(s: Bytes)
    requires 1 <= |s|
    ensures FromLE(s) == Weighed(s, |s|)
    decreases |s|
  {
    WeighedRest(s, |s|);
    if 1 < |s| {
      LowestFirst(s[1..]);
    }
  }

  // ---- Keys

  /** The largest key and the largest value a slot of a V1 node has room for. */
  datatype Room = Room(key: nat, value: nat)

  /** A key type: which reals stand for its keys, and how a key is encoded, with the size if all encodings have the
      same one; and the room in the slots of V1 nodes, where there may be any. */
  datatype Codec = Codec(has: Key -> bool, enc: Key -> Bytes, dec: Bytes -> Key, fixedSize: Option<nat>, slots: Option<Room>)

  ghost predicate Sound(c: Codec) {
    forall k :: c.has(k) ==>
      c.dec(c.enc(k)) == k && AllBytes(c.enc(k)) && (c.fixedSize.Some? ==> |c.enc(k)| == c.fixedSize.value)
  }

  /** Whether an entry can be stored: a key of the type, a value of bytes, both of lengths that 32 bits can say, and
      fit for the slots of V1 nodes, where there may be any. */
  ghost predicate EntryFits(c: Codec, e: Entry) {
    && c.has(e.key) && |c.enc(e.key)| <= MAX_LENGTH && |e.value| <= MAX_LENGTH && AllBytes(e.value)
    && (c.slots.Some? ==> |c.enc(e.key)| <= c.slots.value.key && |e.value| <= c.slots.value.value)
  }

  ghost predicate AllFit(c: Codec, es: seq<Entry>) {
    forall i :: 0 <= i < |es| ==> EntryFits(c, es[i])
  }

  lemma {:induction false} FitTogether(c: Codec, a: seq<Entry>, b: seq<Entry>)
    ensures AllFit(c, a) && AllFit(c, b) ==> AllFit(c, a + b)
  {
  }

  lemma {:induction false} FitParts(c: Codec, s: seq<Entry>, i: nat)
    requires AllFit(c, s) && i <= |s|
    ensures AllFit(c, s[..i]) && AllFit(c, s[i..]) && (i < |s| ==> EntryFits(c, s[i]))
  {
  }

  // ---- Nodes

  datatype NodeType = Leaf | Internal

  /** What is at the address of a node: nothing until the node is first saved, then a V2 node with its overflow
      pages, or a V1 node with all that its page holds. */
  datatype NodeRec =
    | Blank
    | NodeRec(kind: NodeType, entries: seq<Entry>, children: seq<Address>, pages: seq<Address>)
    | FixedRec(kind: NodeType, entries: seq<Entry>, children: seq<Address>, image: Bytes)

  function Overflows(r: NodeRec): seq<Address> {
    if r.NodeRec? then r.pages else []
  }

  /** The node saved, in either layout. */
  predicate SavedAs(r: NodeRec, kind: NodeType, entries: seq<Entry>, children: seq<Address>) {
    !r.Blank? && r.kind == kind && r.entries == entries && r.children == children
  }

  const NODE_MAGIC: Bytes := [66, 84, 78]
  const OVERFLOW_ADDRESS_OFFSET: nat := 7
  const ENTRIES_OFFSET: nat := 15

  function NodeHeader(kind: NodeType, n: nat): (s: Bytes)
    ensures |s| == 7
  {
    NODE_MAGIC + [2, if kind.Leaf? then 0 else 1] + U16(n)
  }

  function FirstPage(pages: seq<Address>): Address {
    if pages == [] then NULL else pages[0]
  }

  function ChildBytes(cs: seq<Address>): (s: Bytes)
    ensures |s| == 8 * |cs|
  {
    if cs == [] then [] else ChildBytes(cs[..|cs| - 1]) + U64(cs[|cs| - 1])
  }

  /** Bytes before the key itself: its size, unless that is fixed. */
  function KeyPrefix(c: Codec): nat {
    if c.fixedSize.Some? then 0 else 4
  }

  function KeyBlob(c: Codec, k: Key): Bytes {
    (if c.fixedSize.Some? then [] else U32(|c.enc(k)|)) + c.enc(k)
  }

  function ValueBlob(v: Value): Bytes {
    U32(|v|) + v
  }

  function KeyBytes(c: Codec, es: seq<Entry>): Bytes {
    if es == [] then [] else KeyBytes(c, es[..|es| - 1]) + KeyBlob(c, es[|es| - 1].key)
  }

  function ValueBytes(es: seq<Entry>): Bytes {
    if es == [] then [] else ValueBytes(es[..|es| - 1]) + ValueBlob(es[|es| - 1].value)
  }

  /** The node as one string of bytes. */
  function Encode(c: Codec, r: NodeRec): Bytes {
    if r.Blank? then []
    else if r.FixedRec? then r.image
    else
      NodeHeader(r.kind, |r.entries|) + U64(FirstPage(r.pages)) + ChildBytes(r.children)
      + KeyBytes(c, r.entries) + ValueBytes(r.entries)
  }

  // ---- Where each field lies

  lemma {:induction false} ChildSlice(cs: seq<Address>, i: nat)
    requires i < |cs|
    ensures ChildBytes(cs)[8 * i..8 * i + 8] == U64(cs[i])
  {
    hide U64;
    var n := |cs| - 1;
    if i < n {
      ChildSlice(cs[..n], i);
      assert ChildBytes(cs)[8 * i..8 * i + 8] == ChildBytes(cs[..n])[8 * i..8 * i + 8];
    }
  }

  lemma {:induction false} KeyBytesPrefix(c: Codec, es: seq<Entry>, i: nat)
    requires i <= |es|
    ensures KeyBytes(c, es[..i]) <= KeyBytes(c, es)
  {
    if i < |es| {
      KeyBytesPrefix(c, es[..|es| - 1], i);
      assert es[..|es| - 1][..i] == es[..i];
    } else {
      assert es[..i] == es;
    }
  }

  lemma {:induction false} ValueBytesPrefix(es: seq<Entry>, i: nat)
    requires i <= |es|
    ensures ValueBytes(es[..i]) <= ValueBytes(es)
  {
    if i < |es| {
      ValueBytesPrefix(es[..|es| - 1], i);
      assert es[..|es| - 1][..i] == es[..i];
    } else {
      assert es[..i] == es;
    }
  }

  lemma {:induction false} KeyStep(c: Codec, es: seq<Entry>, i: nat)
    requires i < |es|
    ensures KeyBytes(c, es[..i + 1]) == KeyBytes(c, es[..i]) + KeyBlob(c, es[i].key)
  {
    assert es[..i + 1][..i] == es[..i];
  }

  lemma {:induction false} ValueStep(es: seq<Entry>, i: nat)
    requires i < |es|
    ensures ValueBytes(es[..i + 1]) == ValueBytes(es[..i]) + ValueBlob(es[i].value)
  {
    assert es[..i + 1][..i] == es[..i];
  }

  /** The string of a node up to its keys, and the offsets of its keys and values. */
  function KeysOffset(r: NodeRec): nat
    requires r.NodeRec?
  {
    ENTRIES_OFFSET + 8 * |r.children|
  }

  function KeyOffset(c: Codec, r: NodeRec, i: nat): nat
    requires r.NodeRec? && i <= |r.entries|
  {
    KeysOffset(r) + |KeyBytes(c, r.entries[..i])|
  }

  function ValueOffset(c: Codec, r: NodeRec, i: nat): nat
    requires r.NodeRec? && i <= |r.entries|
  {
    KeysOffset(r) + |KeyBytes(c, r.entries)| + |ValueBytes(r.entries[..i])|
  }

  lemma {:induction false} HeaderPlace(c: Codec, r: NodeRec)
    requires r.NodeRec?
    ensures |Encode(c, r)| == KeysOffset(r) + |KeyBytes(c, r.entries)| + |ValueBytes(r.entries)|
    ensures Encode(c, r)[..7] == NodeHeader(r.kind, |r.entries|)
    ensures Encode(c, r)[7..15] == U64(FirstPage(r.pages))
    ensures Encode(c, r)[ENTRIES_OFFSET..KeysOffset(r)] == ChildBytes(r.children)
  {
    hide U64, NodeHeader, ChildBytes, KeyBytes, ValueBytes;
  }

  lemma {:induction false} ChildPlace(c: Codec, r: NodeRec, i: nat)
    requires r.NodeRec? && i < |r.children|
    ensures ENTRIES_OFFSET + 8 * i + 8 <= |Encode(c, r)|
    ensures Encode(c, r)[ENTRIES_OFFSET + 8 * i..ENTRIES_OFFSET + 8 * i + 8] == U64(r.children[i])
  {
    hide U64, NodeHeader, ChildBytes, KeyBytes, ValueBytes, Encode;
    HeaderPlace(c, r);
    ChildSlice(r.children, i);
    var e := Encode(c, r);
    assert e[ENTRIES_OFFSET + 8 * i..ENTRIES_OFFSET + 8 * i + 8] == e[ENTRIES_OFFSET..KeysOffset(r)][8 * i..8 * i + 8];
  }

  lemma {:induction false} KeyPlace(c: Codec, r: NodeRec, i: nat)
    requires r.NodeRec? && i < |r.entries|
    ensures KeyOffset(c, r, i + 1) == KeyOffset(c, r, i) + |KeyBlob(c, r.entries[i].key)| <= |Encode(c, r)|
    ensures Encode(c, r)[KeyOffset(c, r, i)..KeyOffset(c, r, i + 1)] == KeyBlob(c, r.entries[i].key)
  {
    hide KeyBytes, ValueBytes, Encode, KeyBlob;
    var es := r.entries;
    var k, e := KeyBytes(c, es), Encode(c, r);
    KeyStep(c, es, i);
    KeyBytesPrefix(c, es, i);
    KeyBytesPrefix(c, es, i + 1);
    var lo, hi := |KeyBytes(c, es[..i])|, |KeyBytes(c, es[..i + 1])|;
    assert k[..hi] == KeyBytes(c, es[..i]) + KeyBlob(c, es[i].key);
    assert k[lo..hi] == k[..hi][lo..] == KeyBlob(c, es[i].key);
    SecondPart(c, r);
    assert e[KeyOffset(c, r, i)..KeyOffset(c, r, i + 1)] == k[lo..hi];
  }

  lemma {:induction false} SecondPart(c: Codec, r: NodeRec)
    requires r.NodeRec?
    ensures var e, n := Encode(c, r), KeysOffset(r);
            && n + |KeyBytes(c, r.entries)| + |ValueBytes(r.entries)| == |e|
            && e[n..n + |KeyBytes(c, r.entries)|] == KeyBytes(c, r.entries)
            && e[n + |KeyBytes(c, r.entries)|..] == ValueBytes(r.entries)
  {
    hide U64, NodeHeader, ChildBytes, KeyBytes, ValueBytes;
  }

  lemma {:induction false} ValuePlace(c: Codec, r: NodeRec, i: nat)
    requires r.NodeRec? && i < |r.entries|
    ensures ValueOffset(c, r, i + 1) == ValueOffset(c, r, i) + |ValueBlob(r.entries[i].value)| <= |Encode(c, r)|
    ensures Encode(c, r)[ValueOffset(c, r, i)..ValueOffset(c, r, i + 1)] == ValueBlob(r.entries[i].value)
  {
    hide KeyBytes, ValueBytes, Encode, ValueBlob;
    var es := r.entries;
    var v, e := ValueBytes(es), Encode(c, r);
    ValueStep(es, i);
    ValueBytesPrefix(es, i);
    ValueBytesPrefix(es, i + 1);
    var lo, hi := |ValueBytes(es[..i])|, |ValueBytes(es[..i + 1])|;
    assert v[..hi] == ValueBytes(es[..i]) + ValueBlob(es[i].value);
    assert v[lo..hi] == v[..hi][lo..] == ValueBlob(es[i].value);
    SecondPart(c, r);
    assert e[ValueOffset(c, r, i)..ValueOffset(c, r, i + 1)] == v[lo..hi];
  }

  // ---- Entries held by reference into the pages of their node

  /** An object held by value, or by the place it is to be loaded from. */
  datatype Lazy<T> = ByVal(value: T) | ByRef(offset: nat, size: nat, loaded: Option<T>)

  datatype LazyEntry = LazyEntry(key: Lazy<Key>, value: Lazy<Value>)

  function Slice(s: Bytes, o: nat, n: nat): Bytes {
    if o + n <= |s| then s[o..o + n] else []
  }

  predicate Loaded<T>(l: Lazy<T>) {
    l.ByVal? || l.loaded.Some?
  }

  function Held<T>(l: Lazy<T>): T
    requires Loaded(l)
  {
    if l.ByVal? then l.value else l.loaded.value
  }

  /** Bytes before a key in a saved node: a V1 node has the size of every key. */
  function KeySkip(c: Codec, r: NodeRec): nat {
    if r.FixedRec? then 4 else KeyPrefix(c)
  }

  /** The key and the value a lazy object stands for while the node's pages hold `r`. */
  function KeyOf(c: Codec, r: NodeRec, l: Lazy<Key>): Key {
    if Loaded(l) then Held(l) else c.dec(Slice(Encode(c, r), l.offset + KeySkip(c, r), l.size))
  }

  function ValueOf(c: Codec, r: NodeRec, l: Lazy<Value>): Value {
    if Loaded(l) then Held(l) else Slice(Encode(c, r), l.offset + 4, l.size)
  }

  function Denote(c: Codec, r: NodeRec, es: seq<LazyEntry>): (s: seq<Entry>)
    ensures |s| == |es|
  {
    seq(|es|, i requires 0 <= i < |es| => Entry(KeyOf(c, r, es[i].key), ValueOf(c, r, es[i].value)))
  }

  predicate EntryLoaded(e: LazyEntry) {
    Loaded(e.key) && Loaded(e.value)
  }

  /** What is not loaded lies within the pages of the node. */
  predicate KeyInPages(c: Codec, r: NodeRec, l: Lazy<Key>) {
    || Loaded(l)
    || (!r.Blank? && l.offset + KeySkip(c, r) + l.size <= |Encode(c, r)| && (c.fixedSize.Some? && !r.FixedRec? ==> l.size == c.fixedSize.value))
  }

  predicate ValueInPages(c: Codec, r: NodeRec, l: Lazy<Value>) {
    Loaded(l) || l.offset + 4 + l.size <= |Encode(c, r)|
  }

  predicate InPages(c: Codec, r: NodeRec, e: LazyEntry) {
    KeyInPages(c, r, e.key) && ValueInPages(c, r, e.value)
  }

  /** What is loaded means the same whatever the pages hold. */
  lemma {:induction false} MovedEntries(c: Codec, r: NodeRec, r': NodeRec, es: seq<LazyEntry>)
    requires r == r' || forall i :: 0 <= i < |es| ==> EntryLoaded(es[i])
    requires forall i :: 0 <= i < |es| ==> InPages(c, r, es[i])
    ensures Denote(c, r', es) == Denote(c, r, es)
    ensures forall i :: 0 <= i < |es| ==> InPages(c, r', es[i])
  {
    hide Encode;
    assert forall i :: 0 <= i < |es| ==> Denote(c, r', es)[i] == Denote(c, r, es)[i];
  }

  /** The kind of a node says how many children it has. */
  predicate Shaped(kind: NodeType, entries: nat, children: nat) {
    children == if kind.Internal? then entries + 1 else 0
  }

  /** A node that can be told from its string. */
  predicate Counted(r: NodeRec) {
    !r.Blank? && Shaped(r.kind, |r.entries|, |r.children|)
  }
}
