/** Nodes in memory, and the pages they are loaded from and saved to. */
module Nodes {
  import opened Types
  import opened SortedSeq
  import opened Trees
  import opened Headers
  import opened Layout
  import opened Memories
  import opened Allocators
  import opened Paging
  import opened NodeIO
  import opened Ownership
  import opened FixedNodes

  datatype SearchResult = Found(index: nat) | Missing(index: nat)

  /** A node in memory: a copy of the node at `address`, with entries loaded when first used. */
  class Node {
    const address: Address
    const kind: NodeType
    /** A V1 node stays one. */
    const fixed: bool
    var entries: seq<LazyEntry>
    var children: seq<Address>
    var overflows: seq<Address>

    constructor (address: Address, kind: NodeType, fixed: bool)
      ensures this.address == address && this.kind == kind && this.fixed == fixed
      ensures entries == [] && children == [] && overflows == []
    {
      this.address, this.kind, this.fixed := address, kind, fixed;
      entries, children, overflows := [], [], [];
    }

    /** The entries this node stands for. */
    ghost function View(s: NodeStore): (es: seq<Entry>)
      reads this, s
      ensures |es| == |entries|
    {
      Denote(s.codec, s.Rec(address), entries)
    }

    /** The node in memory has the layout of the saved one. */
    ghost predicate LaidOut(r: NodeRec, c: Codec, ps: nat) {
      if fixed then HasSlots(c, ps) && !r.NodeRec? else !r.FixedRec?
    }

    /** The pages of the node are its own, and hold all that is still to be loaded. */
    ghost predicate Readable(s: NodeStore)
      reads this, s
    {
      && address in s.nodes && LaidOut(s.nodes[address], s.codec, s.ps)
      && overflows == Overflows(s.nodes[address])
      && forall i :: 0 <= i < |entries| ==> InPages(s.codec, s.nodes[address], entries[i])
    }

    ghost predicate AllLoaded()
      reads this
    {
      forall i :: 0 <= i < |entries| ==> EntryLoaded(entries[i])
    }

    /** The entries of the node are all loaded, and are `es`. */
    ghost predicate Holding(es: seq<Entry>)
      reads this
    {
      |es| == |entries| && forall i :: 0 <= i < |es| ==> EntryLoaded(entries[i]) && es[i] == Entry(Held(entries[i].key), Held(entries[i].value))
    }

    lemma LoadedHolds(s: NodeStore)
      requires AllLoaded()
      ensures Holding(View(s))
    {
    }

    /** The entries of a node that are all loaded. */
    method LoadedEntries(ghost es: seq<Entry>) returns (r: seq<Entry>)
      requires Holding(es)
      ensures r == es
    {
      r := [];
      for i := 0 to |entries|
        invariant r == es[..i]
      {
        r := r + [Entry(Held(entries[i].key), Held(entries[i].value))];
      }
    }

    /** The key of entry `i`, loaded now if it was not before. */
    method Key(i: nat, s: NodeStore) returns (k: Key)
      requires s.Valid() && Readable(s) && i < |entries|
      modifies this`entries
      ensures Readable(s) && View(s) == old(View(s)) && k == View(s)[i].key
      ensures old(AllLoaded()) ==> AllLoaded()
    {
      hide NodeStore.Valid, Encode;
      var e := entries[i];
      k := s.TakeKey(this, e.key);
      if !Loaded(e.key) {
        entries := entries[i := e.(key := e.key.(loaded := Some(k)))];
      }
      assert View(s) == old(View(s));
    }

    /** Loads the key and the value of entry `i`. */
    method LoadEntry(i: nat, s: NodeStore) returns (e: Entry)
      requires s.Valid() && Readable(s) && i < |entries|
      modifies this`entries
      ensures Readable(s) && View(s) == old(View(s)) && e == View(s)[i]
      ensures |entries| == old(|entries|) && EntryLoaded(entries[i])
      ensures forall j :: 0 <= j < |entries| && j != i ==> entries[j] == old(entries[j])
    {
      hide NodeStore.Valid, Encode;
      var l := entries[i];
      var k := s.TakeKey(this, l.key);
      var v := s.TakeValue(this, l.value);
      e := Entry(k, v);
      var key := if Loaded(l.key) then l.key else l.key.(loaded := Some(k));
      var value := if Loaded(l.value) then l.value else l.value.(loaded := Some(v));
      entries := entries[i := LazyEntry(key, value)];
      assert View(s) == old(View(s));
    }

    /** Loads the entries from `lo` on. */
    method LoadFrom(lo: nat, s: NodeStore)
      requires s.Valid() && Readable(s) && lo <= |entries|
      modifies this`entries
      ensures Readable(s) && View(s) == old(View(s)) && |entries| == old(|entries|)
      ensures forall i :: lo <= i < |entries| ==> EntryLoaded(entries[i])
    {
      hide NodeStore.Valid, Encode;
      for i := lo to |entries|
        invariant Readable(s) && View(s) == old(View(s)) && |entries| == old(|entries|)
        invariant forall j :: lo <= j < i ==> EntryLoaded(entries[j])
      {
        var _ := LoadEntry(i, s);
      }
    }

    /** Binary search among the keys of the node. */
    method Search(key: Key, s: NodeStore) returns (r: SearchResult)
      requires s.Valid() && Readable(s) && Sorted(View(s))
      modifies this`entries
      ensures Readable(s) && View(s) == old(View(s))
      ensures r.Found? ==> r.index < |View(s)| && View(s)[r.index].key == key
      ensures r.Missing? ==> Gap(View(s), r.index, key)
    {
      hide NodeStore.Valid, Encode;
      var lo, hi := 0, |entries|;
      while lo < hi
        invariant Readable(s) && View(s) == old(View(s)) && |entries| == old(|entries|)
        invariant 0 <= lo <= hi <= |entries|
        invariant 0 < lo ==> View(s)[lo - 1].key < key
        invariant hi < |entries| ==> key < View(s)[hi].key
      {
        var mid := (lo + hi) / 2;
        var k := Key(mid, s);
        if k == key {
          return Found(mid);
        } else if k < key {
          lo := mid + 1;
        } else {
          hi := mid;
        }
      }
      r := Missing(lo);
    }

    /** Replaces the value of entry `i`, returning the old one. */
    method SwapValue(i: nat, v: Value, s: NodeStore) returns (old_: Value)
      requires s.Valid() && Readable(s) && i < |entries|
      modifies this`entries
      ensures Readable(s) && old_ == old(View(s))[i].value
      ensures View(s) == old(View(s))[i := Entry(old(View(s))[i].key, v)]
    {
      hide NodeStore.Valid, Encode;
      old_ := s.TakeValue(this, entries[i].value);
      entries := entries[i := entries[i].(value := ByVal(v))];
      assert View(s) == old(View(s))[i := Entry(old(View(s))[i].key, v)];
    }

    /** Replaces entry `i`, returning the old one. */
    method SwapEntry(i: nat, e: Entry, s: NodeStore) returns (old_: Entry)
      requires s.Valid() && Readable(s) && i < |entries|
      modifies this`entries
      ensures Readable(s) && old_ == old(View(s))[i] && View(s) == old(View(s))[i := e]
    {
      hide NodeStore.Valid, Encode;
      var k := s.TakeKey(this, entries[i].key);
      var v := s.TakeValue(this, entries[i].value);
      old_ := Entry(k, v);
      entries := entries[i := LazyEntry(ByVal(e.key), ByVal(e.value))];
      assert View(s) == old(View(s))[i := e];
    }

    method InsertEntry(i: nat, e: Entry, ghost s: NodeStore)
      requires i <= |entries| && Readable(s)
      modifies this`entries
      ensures Readable(s) && View(s) == old(View(s))[..i] + [e] + old(View(s))[i..]
      ensures old(AllLoaded()) ==> AllLoaded()
    {
      hide NodeStore.Valid, Encode;
      entries := entries[..i] + [LazyEntry(ByVal(e.key), ByVal(e.value))] + entries[i..];
      assert View(s) == old(View(s))[..i] + [e] + old(View(s))[i..];
    }

    method PushEntry(e: Entry, ghost s: NodeStore)
      requires Readable(s)
      modifies this`entries
      ensures Readable(s) && View(s) == old(View(s)) + [e]
      ensures entries == old(entries) + [LazyEntry(ByVal(e.key), ByVal(e.value))]
    {
      hide NodeStore.Valid, Encode;
      entries := entries + [LazyEntry(ByVal(e.key), ByVal(e.value))];
      assert View(s) == old(View(s)) + [e];
    }

    method RemoveEntry(i: nat, s: NodeStore) returns (e: Entry)
      requires s.Valid() && Readable(s) && i < |entries|
      modifies this`entries
      ensures Readable(s) && e == old(View(s))[i]
      ensures View(s) == old(View(s))[..i] + old(View(s))[i + 1..]
    {
      hide NodeStore.Valid, Encode;
      var k := s.TakeKey(this, entries[i].key);
      var v := s.TakeValue(this, entries[i].value);
      e := Entry(k, v);
      entries := entries[..i] + entries[i + 1..];
      assert View(s) == old(View(s))[..i] + old(View(s))[i + 1..];
    }

    method PopEntry(s: NodeStore) returns (e: Option<Entry>)
      requires s.Valid() && Readable(s)
      modifies this`entries
      ensures Readable(s) && (e.None? <==> old(View(s)) == []) && (e.None? ==> View(s) == [])
      ensures e.Some? ==> old(View(s)) == View(s) + [e.value]
    {
      hide NodeStore.Valid, Encode;
      if |entries| == 0 {
        return None;
      }
      var n := |entries| - 1;
      var k := s.TakeKey(this, entries[n].key);
      var v := s.TakeValue(this, entries[n].value);
      e := Some(Entry(k, v));
      entries := entries[..n];
      assert View(s) == old(View(s))[..n];
    }

    /** Moves the entries and children above the median into `sibling`, and takes the median out.
        The moved entries are loaded first: their places mean nothing in the sibling's pages. */
    method Split(sibling: Node, s: NodeStore) returns (median: Entry)
      requires s.Valid() && Readable(s) && sibling.Readable(s) && sibling != this
      requires |entries| == CAPACITY && sibling.entries == [] && sibling.children == []
      requires kind.Internal? ==> |children| == CAPACITY + 1
      modifies this`entries, this`children, sibling`entries, sibling`children
      ensures Readable(s) && sibling.Readable(s)
      ensures View(s) == old(View(s))[..B - 1] && median == old(View(s))[B - 1]
      ensures sibling.View(s) == old(View(s))[B..]
      ensures kind.Internal? ==> children == old(children)[..B] && sibling.children == old(children)[B..]
      ensures kind.Leaf? ==> children == old(children) && sibling.children == []
    {
      hide NodeStore.Valid, Encode;
      LoadFrom(B, s);
      sibling.entries := entries[B..];
      assert sibling.View(s) == old(View(s))[B..];
      entries := entries[..B];
      assert View(s) == old(View(s))[..B];
      if kind.Internal? {
        sibling.children := children[B..];
        children := children[..B];
      }
      ghost var low := View(s);
      var last := PopEntry(s);
      median := last.value;
      assert View(s) == low[..B - 1] == old(View(s))[..B - 1];
    }

    /** Appends `median` and the contents of `b` to this node, leaving `b` empty. Of the two, the
        one whose pages do not hold `r` is loaded already. */
    method Append(b: Node, median: Entry, s: NodeStore, ghost r: NodeRec)
      requires s.Valid() && Readable(s) && b.Readable(s) && b != this && kind == b.kind
      requires r == s.Rec(address) || AllLoaded()
      requires r == s.Rec(b.address) || b.AllLoaded()
      requires 0 < |entries| && 0 < |b.entries|
      requires View(s)[|entries| - 1].key < median.key < b.View(s)[0].key
      modifies this`entries, this`children, b`entries, b`children
      ensures Denote(s.codec, r, entries) == old(View(s)) + [median] + old(b.View(s))
      ensures forall i :: 0 <= i < |entries| ==> InPages(s.codec, r, entries[i])
      ensures children == old(children) + old(b.children)
      ensures b.entries == [] && b.children == []
    {
      hide NodeStore.Valid, Encode, KeyOf, ValueOf, InPages, EntryLoaded;
      var last := Key(|entries| - 1, s);
      assert last < median.key;
      var first := b.Key(0, s);
      assert median.key < first;
      MovedEntries(s.codec, s.Rec(address), r, entries);
      MovedEntries(s.codec, s.Rec(b.address), r, b.entries);
      Inserted(s.codec, r, entries, b.entries, median);
      entries := entries + [LazyEntry(ByVal(median.key), ByVal(median.value))];
      entries := entries + b.entries;
      b.entries := [];
      children := children + b.children;
      b.children := [];
    }

    lemma Inserted(c: Codec, r: NodeRec, es: seq<LazyEntry>, fs: seq<LazyEntry>, e: Entry)
      ensures Denote(c, r, es + [LazyEntry(ByVal(e.key), ByVal(e.value))] + fs) == Denote(c, r, es) + [e] + Denote(c, r, fs)
      ensures InPages(c, r, LazyEntry(ByVal(e.key), ByVal(e.value)))
    {
      hide Encode;
    }

    /** Merges `source` and the entry between the two nodes into this node, saves it and frees the
        pages of `source`. */
    method Merge(source: Node, median: Entry, s: NodeStore)
      requires s.Valid() && Readable(s) && source.Readable(s) && source.address != address && kind == source.kind
      requires 0 < |entries| && 0 < |source.entries|
      requires if View(s)[0].key < source.View(s)[0].key
               then View(s)[|entries| - 1].key < median.key < source.View(s)[0].key
               else source.View(s)[|source.entries| - 1].key < median.key < View(s)[0].key
      requires AllFit(s.codec, View(s)) && AllFit(s.codec, source.View(s)) && EntryFits(s.codec, median)
      requires Sorted(View(s)) && Sorted(source.View(s)) && |entries| + 1 + |source.entries| <= CAPACITY
      requires Shaped(kind, |entries|, |children|) && Shaped(kind, |source.entries|, |source.children|)
      requires s.Known(children) && s.Known(source.children)
      modifies this`entries, this`children, this`overflows, source`entries, source`children, s.Footprint()
      ensures s.Valid() && s.Front() == old(s.Front()) && Readable(s)
      ensures View(s) == if old(View(s))[0].key < old(source.View(s))[0].key
                         then old(View(s)) + [median] + old(source.View(s))
                         else old(source.View(s)) + [median] + old(View(s))
      ensures children == if old(View(s))[0].key < old(source.View(s))[0].key
                          then old(children) + old(source.children)
                          else old(source.children) + old(children)
      ensures address in s.nodes && SavedAs(s.nodes[address], kind, View(s), children) && old(s.Span()) <= s.Span()
      ensures s.nodes == old(s.nodes)[address := s.nodes[address]] - {source.address}
    {
      hide NodeStore.Valid, NodeStore.Front, Denote, InPages, AllFit, EntryFits, LaidOut;
      FitJoined(s.codec, View(s), median, source.View(s));
      SortedJoined(View(s), median, source.View(s));
      source.LoadFrom(0, s);
      Absorb(source, median, s);
      s.SaveNode(this);
      s.DeallocateNode(source);
    }

    lemma SortedJoined(a: seq<Entry>, m: Entry, b: seq<Entry>)
      requires Sorted(a) && Sorted(b) && a != [] && b != []
      ensures a[|a| - 1].key < m.key < b[0].key ==> Sorted(a + [m] + b)
      ensures b[|b| - 1].key < m.key < a[0].key ==> Sorted(b + [m] + a)
    {
    }

    lemma FitJoined(c: Codec, a: seq<Entry>, m: Entry, b: seq<Entry>)
      requires AllFit(c, a) && AllFit(c, b) && EntryFits(c, m)
      ensures AllFit(c, a + [m] + b) && AllFit(c, b + [m] + a)
    {
    }

    /** Takes over the entries and children of `source`, on the side its keys say. */
    method Absorb(source: Node, median: Entry, s: NodeStore)
      requires s.Valid() && Readable(s) && source.Readable(s) && source.address != address && kind == source.kind
      requires 0 < |entries| && 0 < |source.entries| && source.AllLoaded()
      requires if View(s)[0].key < source.View(s)[0].key
               then View(s)[|entries| - 1].key < median.key < source.View(s)[0].key
               else source.View(s)[|source.entries| - 1].key < median.key < View(s)[0].key
      modifies this`entries, this`children, source`entries, source`children
      ensures Readable(s)
      ensures View(s) == if old(View(s))[0].key < old(source.View(s))[0].key
                         then old(View(s)) + [median] + old(source.View(s))
                         else old(source.View(s)) + [median] + old(View(s))
      ensures children == if old(View(s))[0].key < old(source.View(s))[0].key
                          then old(children) + old(source.children)
                          else old(source.children) + old(children)
    {
      hide NodeStore.Valid, NodeStore.Front, Denote, InPages;
      var sourceKey := source.Key(0, s);
      var thisKey := Key(0, s);
      if sourceKey > thisKey {
        Append(source, median, s, s.Rec(address));
      } else {
        source.Append(this, median, s, s.Rec(address));
        entries, children := source.entries, source.children;
        source.entries, source.children := [], [];
      }
    }

    /** What is loaded no longer depends on the pages. */
    lemma LoadedView(s: NodeStore)
      requires AllLoaded()
      ensures forall r :: Denote(s.codec, r, entries) == View(s)
    {
      forall r
        ensures Denote(s.codec, r, entries) == View(s)
      {
      }
    }
  }

  const EAGER_LOAD_KEY_SIZE_THRESHOLD: nat := 16
  const CHILDREN_BATCH_READ_THRESHOLD: nat := 4

  /** The nodes saved in the memory of an allocator, and who owns each allocated page. */
  class NodeStore {
    const allocator: Allocator
    const codec: Codec
    const ps: PageSize

    ghost var nodes: map<Address, NodeRec>
    ghost var owner: map<Address, Address>

    /** Every allocated page belongs to one node, and the pages of every node hold it. */
    ghost predicate Valid()
      reads this, allocator, allocator.memory
    {
      && allocator.Valid() && allocator.allocationSize == ps
      && Sound(codec) && NULL !in nodes
      && Owners(nodes, owner, allocator.Live())
      && AllAt(allocator.memory.bytes, ps, codec, nodes)
    }

    ghost function Footprint(): set<object> {
      {this, allocator, allocator.memory}
    }

    /** The size of the memory. */
    ghost function Span(): nat
      reads allocator.memory
    {
      |allocator.memory.bytes|
    }

    /** Addresses of nodes. */
    ghost predicate Known(cs: seq<Address>)
      reads this
    {
      forall j :: 0 <= j < |cs| ==> cs[j] in nodes
    }

    /** The address of a node lies within the memory. */
    lemma KnownWithin(cs: seq<Address>)
      requires Valid() && Known(cs)
      ensures forall j :: 0 <= j < |cs| ==> cs[j] < Span()
    {
      hide Allocator.Valid, LiveOf, AllAt, Owners;
      allocator.LiveApart();
      forall j | 0 <= j < |cs|
        ensures cs[j] < Span()
      {
        NodeLive(nodes, owner, allocator.Live(), cs[j]);
      }
    }

    /** What lies in front of the allocator. */
    ghost function Front(): Bytes
      reads this, allocator.memory
    {
      if allocator.headerAddr <= |allocator.memory.bytes| then allocator.memory.bytes[..allocator.headerAddr] else []
    }

    ghost function Rec(a: Address): NodeRec
      reads this
    {
      if a in nodes then nodes[a] else Blank
    }

    lemma NoNull()
      requires Valid()
      ensures NULL !in nodes
    {
    }

    // ---- Reading

    /** The pages of a node, ready to be read. */
    lemma Ready(a: Address)
      requires Valid() && a in nodes
      ensures PagesApart(allocator.memory.bytes, PagesOf(a, nodes[a]), ps)
      ensures Heads(allocator.memory.bytes, Overflows(nodes[a])) && NULL !in Overflows(nodes[a])
      ensures !nodes[a].Blank? ==> Holds(allocator.memory.bytes, PagesOf(a, nodes[a]), ps, Encode(codec, nodes[a])) && AllFit(codec, nodes[a].entries)
      ensures nodes[a].FixedRec? ==> Slotted(codec, ps, nodes[a])
    {
      hide Allocator.Valid, LiveOf, Encode, Holds, PagesApart, Shares, Owners, AllFit, Slotted;
      OwnShare(nodes, owner, allocator.Live(), a);
      var p := PagesOf(a, nodes[a]);
      PagesLive(allocator, allocator.Live() - SetOf(p), p, ps);
      assert NodeAt(allocator.memory.bytes, ps, codec, a, nodes[a]);
      forall i | 0 <= i < |Overflows(nodes[a])|
        ensures Overflows(nodes[a])[i] != NULL
      {
        assert p[i + 1] == Overflows(nodes[a])[i];
      }
    }

    /** Part of the string of a node. */
    method ReadAt(a: Address, ov: seq<Address>, off: nat, n: nat) returns (r: Bytes)
      requires Valid() && a in nodes && !nodes[a].Blank? && ov == Overflows(nodes[a]) && off + n <= |Encode(codec, nodes[a])|
      ensures r == Encode(codec, nodes[a])[off..off + n]
    {
      hide Valid, Encode, Holds, PagesApart, AllFit, Slotted;
      Ready(a);
      r := ReadNode(allocator.memory, a, ov, ps, off, n, Encode(codec, nodes[a]));
    }

    method TakeKey(n: Node, l: Lazy<Key>) returns (k: Key)
      requires Valid() && n.address in nodes && n.overflows == Overflows(nodes[n.address]) && n.LaidOut(nodes[n.address], codec, ps)
      requires KeyInPages(codec, nodes[n.address], l)
      ensures k == KeyOf(codec, nodes[n.address], l)
    {
      hide Valid, Encode;
      if Loaded(l) {
        k := Held(l);
      } else if n.fixed {
        var s := LoadBytes(n, l.offset + 4, l.size);
        k := codec.dec(s);
      } else {
        var size := if codec.fixedSize.Some? then codec.fixedSize.value else l.size;
        var s := LoadBytes(n, l.offset + KeyPrefix(codec), size);
        k := codec.dec(s);
      }
    }

    method TakeValue(n: Node, l: Lazy<Value>) returns (v: Value)
      requires Valid() && n.address in nodes && n.overflows == Overflows(nodes[n.address])
      requires ValueInPages(codec, nodes[n.address], l)
      ensures v == ValueOf(codec, nodes[n.address], l)
    {
      hide Valid, Encode;
      if Loaded(l) {
        v := Held(l);
      } else {
        v := LoadBytes(n, l.offset + 4, l.size);
      }
    }

    /** Bytes of the string of a node; a node never saved has none. */
    method LoadBytes(n: Node, off: nat, size: nat) returns (r: Bytes)
      requires Valid() && n.address in nodes && n.overflows == Overflows(nodes[n.address])
      requires off + size <= |Encode(codec, nodes[n.address])|
      ensures r == Slice(Encode(codec, nodes[n.address]), off, size)
    {
      hide Valid;
      if size == 0 {
        r := [];
      } else {
        r := ReadAt(n.address, n.overflows, off, size);
      }
    }

    /** Follows the chain of overflow pages. */
    method ReadOverflows(a: Address) returns (ov: seq<Address>)
      requires Valid() && a in nodes && nodes[a].NodeRec?
      ensures ov == nodes[a].pages
    {
      hide Valid, Encode, Holds, PagesApart, Heads, U64;
      ghost var r := nodes[a];
      Ready(a);
      HeaderPlace(codec, r);
      var s := ReadFirst(a, OVERFLOW_ADDRESS_OFFSET, 8);
      var next := FromLE(s);
      assert next == FirstPage(r.pages);
      ov := [];
      while next != NULL
        invariant |ov| <= |r.pages| && ov == r.pages[..|ov|]
        invariant next == if |ov| < |r.pages| then r.pages[|ov|] else NULL
        decreases |r.pages| - |ov|
      {
        HeadNext(allocator.memory.bytes, r.pages, |ov|);
        ov := ov + [next];
        var head := allocator.memory.Read(next, PAGE_OVERFLOW_DATA_OFFSET);
        assert head[..3] == OVERFLOW_MAGIC;
        next := FromLE(head[PAGE_OVERFLOW_NEXT_OFFSET..]);
      }
    }

    lemma HeadNext(b: Bytes, ov: seq<Address>, k: nat)
      requires Heads(b, ov) && k < |ov|
      ensures ov[k] + PAGE_OVERFLOW_DATA_OFFSET <= |b|
      ensures FromLE(b[ov[k]..ov[k] + PAGE_OVERFLOW_DATA_OFFSET][PAGE_OVERFLOW_NEXT_OFFSET..]) == NextPage(ov, k)
      ensures b[ov[k]..ov[k] + PAGE_OVERFLOW_DATA_OFFSET][..3] == OVERFLOW_MAGIC
    {
      hide U64;
      assert HeadAt(b, ov, k);
      assert HeadBytes(NextPage(ov, k))[PAGE_OVERFLOW_NEXT_OFFSET..] == U64(NextPage(ov, k));
    }

    /** Part of the first page of a node, read before its overflow pages are known. */
    method ReadFirst(a: Address, off: nat, n: nat) returns (r: Bytes)
      requires Valid() && a in nodes && !nodes[a].Blank? && off + n <= ENTRIES_OFFSET
      ensures |Encode(codec, nodes[a])| >= ENTRIES_OFFSET && r == Encode(codec, nodes[a])[off..off + n]
    {
      hide Valid, Encode, Holds, PagesApart, Heads, AllFit;
      Ready(a);
      LongEnough(nodes[a]);
      FirstRead(allocator.memory.bytes, PagesOf(a, nodes[a]), ps, Encode(codec, nodes[a]), off, n);
      r := allocator.memory.Read(a + off, n);
    }

    lemma LongEnough(r: NodeRec)
      requires !r.Blank? && (r.FixedRec? ==> Slotted(codec, ps, r))
      ensures ENTRIES_OFFSET <= |Encode(codec, r)|
    {
      if r.NodeRec? {
        HeaderPlace(codec, r);
      }
    }

    /** The children of an internal node: one by one if few, all at once otherwise. */
    method ReadChildren(a: Address, ov: seq<Address>, count: nat) returns (cs: seq<Address>)
      requires Valid() && a in nodes && nodes[a].NodeRec? && ov == nodes[a].pages && count == |nodes[a].children|
      ensures cs == nodes[a].children
    {
      hide Valid, Encode, U64, ChildBytes, KeyBytes, ValueBytes;
      ghost var r := nodes[a];
      cs := [];
      if count <= CHILDREN_BATCH_READ_THRESHOLD {
        var offset := ENTRIES_OFFSET;
        for i := 0 to count
          invariant cs == r.children[..i] && offset == ENTRIES_OFFSET + 8 * i
        {
          ChildPlace(codec, r, i);
          var s := ReadAt(a, ov, offset, 8);
          cs := cs + [FromLE(s)];
          offset := offset + 8;
        }
      } else {
        HeaderPlace(codec, r);
        var s := ReadAt(a, ov, ENTRIES_OFFSET, 8 * count);
        for i := 0 to count
          invariant cs == r.children[..i]
        {
          ChildSlice(r.children, i);
          cs := cs + [FromLE(s[8 * i..8 * i + 8])];
        }
      }
    }

    /** The keys of a node: the small ones, and the places of the others. */
    method ReadKeys(a: Address, ov: seq<Address>, start: nat, count: nat) returns (keys: seq<Lazy<Key>>, offset: nat)
      requires Valid() && a in nodes && nodes[a].NodeRec? && ov == nodes[a].pages
      requires count == |nodes[a].entries| && start == KeyOffset(codec, nodes[a], 0)
      ensures |keys| == count && offset == KeyOffset(codec, nodes[a], count)
      ensures forall i :: 0 <= i < count ==> KeyInPages(codec, nodes[a], keys[i]) && KeyOf(codec, nodes[a], keys[i]) == nodes[a].entries[i].key
    {
      hide Valid, Encode, U32, KeyBytes, KeyOffset, KeyOf, KeyInPages;
      keys, offset := [], start;
      for i := 0 to count
        invariant |keys| == i && offset == KeyOffset(codec, nodes[a], i)
        invariant forall j :: 0 <= j < i ==> KeyInPages(codec, nodes[a], keys[j]) && KeyOf(codec, nodes[a], keys[j]) == nodes[a].entries[j].key
      {
        var key, next := ReadKey(a, ov, offset, i);
        keys, offset := keys + [key], next;
      }
    }

    method ReadKey(a: Address, ov: seq<Address>, offset: nat, ghost i: nat) returns (key: Lazy<Key>, next: nat)
      requires Valid() && a in nodes && nodes[a].NodeRec? && ov == nodes[a].pages
      requires i < |nodes[a].entries| && offset == KeyOffset(codec, nodes[a], i)
      ensures KeyInPages(codec, nodes[a], key) && KeyOf(codec, nodes[a], key) == nodes[a].entries[i].key
      ensures next == KeyOffset(codec, nodes[a], i + 1)
    {
      hide Valid, Encode, U32, KeyBytes, KeyOffset, Holds, PagesApart, Heads;
      ghost var r, e := nodes[a], codec.enc(nodes[a].entries[i].key);
      Ready(a);
      SizeKnown(r.entries[i].key);
      KeyPlace(codec, r, i);
      KeyParts(Encode(codec, r), offset, e);
      var size, at := 0, offset;
      if codec.fixedSize.Some? {
        size := codec.fixedSize.value;
      } else {
        var s := ReadAt(a, ov, offset, 4);
        size, at := FromLE(s), offset + 4;
      }
      if size <= EAGER_LOAD_KEY_SIZE_THRESHOLD {
        var s := ReadAt(a, ov, at, size);
        key := ByVal(codec.dec(s));
      } else {
        key := ByRef(offset, size, None);
      }
      next := at + size;
    }

    /** A key in the string of a node: its size, unless that is fixed, and its bytes. */
    lemma KeyParts(s: Bytes, offset: nat, e: Bytes)
      requires var blob := (if codec.fixedSize.Some? then [] else U32(|e|)) + e;
               offset + |blob| <= |s| && s[offset..offset + |blob|] == blob
      ensures codec.fixedSize.None? ==> s[offset..offset + 4] == U32(|e|)
      ensures var at := offset + KeyPrefix(codec); at + |e| <= |s| && s[at..at + |e|] == e
    {
      hide U32;
      var blob := (if codec.fixedSize.Some? then [] else U32(|e|)) + e;
      var at := offset + KeyPrefix(codec);
      assert s[at..at + |e|] == s[offset..offset + |blob|][KeyPrefix(codec)..];
      if codec.fixedSize.None? {
        assert s[offset..offset + 4] == s[offset..offset + |blob|][..4];
      }
    }

    lemma SizeKnown(k: Key)
      requires Valid() && codec.has(k)
      ensures codec.fixedSize.Some? ==> |codec.enc(k)| == codec.fixedSize.value
      ensures codec.dec(codec.enc(k)) == k
    {
      hide Allocator.Valid, Owners, AllAt;
    }

    /** The places of the values of a node. */
    method ReadValues(a: Address, ov: seq<Address>, start: nat, count: nat) returns (values: seq<Lazy<Value>>)
      requires Valid() && a in nodes && nodes[a].NodeRec? && ov == nodes[a].pages
      requires count == |nodes[a].entries| && start == ValueOffset(codec, nodes[a], 0)
      ensures |values| == count
      ensures forall i :: 0 <= i < count ==> ValueInPages(codec, nodes[a], values[i]) && ValueOf(codec, nodes[a], values[i]) == nodes[a].entries[i].value
    {
      hide Valid, Encode, U32, ValueBytes, ValueOffset, ValueOf, ValueInPages;
      values := [];
      var offset := start;
      for i := 0 to count
        invariant |values| == i && offset == ValueOffset(codec, nodes[a], i)
        invariant forall j :: 0 <= j < i ==> ValueInPages(codec, nodes[a], values[j]) && ValueOf(codec, nodes[a], values[j]) == nodes[a].entries[j].value
      {
        var value, next := ReadValue(a, ov, offset, i);
        values, offset := values + [value], next;
      }
    }

    method ReadValue(a: Address, ov: seq<Address>, offset: nat, ghost i: nat) returns (value: Lazy<Value>, next: nat)
      requires Valid() && a in nodes && nodes[a].NodeRec? && ov == nodes[a].pages
      requires i < |nodes[a].entries| && offset == ValueOffset(codec, nodes[a], i)
      ensures ValueInPages(codec, nodes[a], value) && ValueOf(codec, nodes[a], value) == nodes[a].entries[i].value
      ensures next == ValueOffset(codec, nodes[a], i + 1)
    {
      hide Valid, Encode, U32, ValueBytes, ValueOffset;
      ghost var r, v := nodes[a], nodes[a].entries[i].value;
      ValuePlace(codec, r, i);
      ghost var blob := Encode(codec, r)[offset..ValueOffset(codec, r, i + 1)];
      var s := ReadAt(a, ov, offset, 4);
      assert s == blob[..4] == U32(|v|);
      var size := FromLE(s);
      assert Encode(codec, r)[offset + 4..offset + 4 + size] == blob[4..] == v;
      value := ByRef(offset, size, None);
      next := offset + 4 + size;
    }

    /** Loads a node in the layout its header names. */
    method LoadNode(a: Address) returns (n: Node)
      requires Valid() && a in nodes && Counted(nodes[a])
      ensures fresh(n) && n.address == a && n.kind == nodes[a].kind && n.children == nodes[a].children
      ensures n.Readable(this) && n.View(this) == nodes[a].entries
    {
      hide Valid, Encode, Node.View, Node.Readable, Slotted, AllFit;
      Ready(a);
      var header := ReadFirst(a, 0, OVERFLOW_ADDRESS_OFFSET);
      VersionByte(nodes[a]);
      assert header[..3] == NODE_MAGIC && (header[3] == 1 || header[3] == 2);
      if header[3] == 1 {
        n := LoadFixed(a);
      } else {
        n := LoadPaged(a, header);
      }
    }

    lemma VersionByte(r: NodeRec)
      requires !r.Blank? && (r.FixedRec? ==> Slotted(codec, ps, r))
      ensures ENTRIES_OFFSET <= |Encode(codec, r)|
      ensures var h := Encode(codec, r)[0..OVERFLOW_ADDRESS_OFFSET]; h[..3] == NODE_MAGIC && h[3] == if r.FixedRec? then 1 else 2
    {
      LongEnough(r);
      if r.FixedRec? {
        HeaderRead(r.image, r.kind, |r.entries|);
      } else {
        HeaderPlace(codec, r);
      }
    }

    /** Loads a V1 node. */
    method LoadFixed(a: Address) returns (n: Node)
      requires Valid() && a in nodes && Counted(nodes[a]) && nodes[a].FixedRec?
      ensures fresh(n) && n.address == a && n.kind == nodes[a].kind && n.children == nodes[a].children
      ensures n.Readable(this) && n.View(this) == nodes[a].entries
    {
      hide Valid, Holds, PagesApart, Heads, AllFit, KeyOf, ValueOf, InPages, ImageHolds, Counted;
      ghost var r := nodes[a];
      Ready(a);
      HasSound();
      FirstRead(allocator.memory.bytes, PagesOf(a, r), ps, r.image, 0, ps);
      assert r.image[0..ps] == r.image;
      var kind, es, cs := LoadSlots(allocator.memory, a, codec, codec.slots.value, r);
      n := new Node(a, kind, true);
      n.entries, n.children := es, cs;
      assert forall i :: 0 <= i < |es| ==> Taken(codec, r, es[i], r.entries[i]);
      assert n.View(this) == r.entries;
    }

    lemma HasSound()
      requires Valid()
      ensures Sound(codec)
    {
    }

    /** Loads a V2 node: its children, and the keys and values or their places. */
    method LoadPaged(a: Address, header: Bytes) returns (n: Node)
      requires Valid() && a in nodes && Counted(nodes[a]) && nodes[a].NodeRec?
      requires |Encode(codec, nodes[a])| >= ENTRIES_OFFSET && header == Encode(codec, nodes[a])[0..OVERFLOW_ADDRESS_OFFSET]
      ensures fresh(n) && n.address == a && n.kind == nodes[a].kind && n.children == nodes[a].children
      ensures n.Readable(this) && n.View(this) == nodes[a].entries
    {
      hide Valid, Encode, U16, KeyBytes, ValueBytes, KeyOf, ValueOf, KeyInPages, ValueInPages;
      ghost var r := nodes[a];
      HeaderPlace(codec, r);
      assert header == NodeHeader(r.kind, |r.entries|);
      var kind := if header[4] == 0 then Leaf else Internal;
      var count := FromLE(header[5..7]);
      assert header[5..7] == U16(|r.entries|);
      var ov := ReadOverflows(a);
      n := new Node(a, kind, false);
      n.overflows := ov;
      var cs := [];
      if kind.Internal? {
        cs := ReadChildren(a, ov, count + 1);
      }
      n.children := cs;
      NoneYet(r);
      var keys, offset := ReadKeys(a, ov, ENTRIES_OFFSET + 8 * |cs|, count);
      var values := ReadValues(a, ov, offset, count);
      n.entries := seq(count, i requires 0 <= i < count => LazyEntry(keys[i], values[i]));
      assert n.View(this) == r.entries;
    }

    lemma NoneYet(r: NodeRec)
      requires r.NodeRec?
      ensures KeyOffset(codec, r, 0) == KeysOffset(r)
      ensures ValueOffset(codec, r, 0) == KeyOffset(codec, r, |r.entries|)
    {
      assert r.entries[..|r.entries|] == r.entries;
    }

    // ---- Writing

    constructor (allocator: Allocator, codec: Codec, ps: PageSize)
      requires allocator.Valid() && allocator.allocationSize == ps && allocator.Live() == {} && Sound(codec)
      ensures Valid() && nodes == map[]
      ensures this.allocator == allocator && this.codec == codec && this.ps == ps
    {
      hide Allocator.Valid, LiveOf;
      this.allocator, this.codec, this.ps := allocator, codec, ps;
      nodes, owner := map[], map[];
    }

    /** The nodes found again in the memory of a reloaded allocator. */
    constructor Load(allocator: Allocator, codec: Codec, ps: PageSize, ghost was: NodeStore)
      requires was.Valid() && was.codec == codec && was.ps == ps
      requires allocator.Valid() && allocator.memory == was.allocator.memory && allocator.headerAddr == was.allocator.headerAddr
      requires allocator.Live() == was.allocator.Live() && allocator.allocationSize == ps
      ensures Valid() && nodes == was.nodes && Front() == was.Front()
      ensures this.allocator == allocator && this.codec == codec && this.ps == ps
    {
      hide Allocator.Valid, LiveOf, Owners, AllAt;
      this.allocator, this.codec, this.ps := allocator, codec, ps;
      nodes, owner := was.nodes, was.owner;
    }

    /** Frees every page. */
    method Clear()
      requires Valid()
      modifies Footprint()
      ensures Valid() && Front() == old(Front()) && nodes == map[] && old(Span()) <= Span()
    {
      hide Allocator.Valid, LiveOf, AllAt, Untouched;
      ghost var b := allocator.memory.bytes;
      HasFront();
      allocator.Clear();
      nodes, owner := map[], map[];
      FrontKept(b, allocator.memory.bytes, {});
      assert AllAt(allocator.memory.bytes, ps, codec, map[]) by {
        NoneAt(allocator.memory.bytes);
      }
    }

    lemma NoneAt(b: Bytes)
      ensures AllAt(b, ps, codec, map[])
    {
    }

    lemma FrontKept(b: Bytes, b': Bytes, pages: set<Address>)
      requires Untouched(b, b', allocator.headerAddr, pages, ps) && allocator.headerAddr <= |b|
      ensures allocator.headerAddr <= |b'| && b'[..allocator.headerAddr] == b[..allocator.headerAddr] && |b| <= |b'|
    {
    }

    lemma HasFront()
      requires allocator.Valid()
      ensures allocator.headerAddr <= |allocator.memory.bytes| && Genuine(allocator.memory.bytes) && allocator.allocationSize < ADDRESS_SPACE
    {
    }

    /** Writes in front of the allocator. */
    method WriteFront(s: Bytes)
      requires Valid() && |s| <= allocator.headerAddr && Writable(allocator.memory.bytes, s)
      modifies Footprint()
      ensures Valid() && nodes == old(nodes) && s <= Front() && old(Span()) <= Span()
    {
      hide Allocator.Valid, LiveOf, AllAt, Untouched, Owners, Writable, Genuine;
      ghost var b := allocator.memory.bytes;
      HasFront();
      allocator.WriteFront(s);
      ReadBack(b, allocator.memory.bytes, 0, s);
      assert s == allocator.memory.bytes[..allocator.headerAddr][..|s|];
      OthersKept(b, 0, allocator.Live(), allocator.Live(), nodes);
    }

    /** Other nodes are where they were. */
    lemma OthersKept(b: Bytes, front: nat, live: set<Address>, others: set<Address>, rest: map<Address, NodeRec>)
      requires AllAt(b, ps, codec, nodes) && Owners(nodes, owner, live)
      requires Untouched(b, allocator.memory.bytes, front, others, ps)
      requires forall x :: x in rest ==> x in nodes && rest[x] == nodes[x]
      requires forall p :: p in live && owner[p] in rest ==> p in others
      ensures AllAt(allocator.memory.bytes, ps, codec, rest)
    {
      OthersFrame(b, allocator.memory.bytes, front, others, ps, codec, nodes, owner, live, rest);
    }

    /** A new node, with a page of its own. */
    method AllocateNode(kind: NodeType, fixed: bool) returns (n: Node)
      requires Valid() && (fixed ==> HasSlots(codec, ps))
      modifies Footprint()
      ensures Valid() && Front() == old(Front())
      ensures fresh(n) && n.kind == kind && n.fixed == fixed && n.entries == [] && n.children == [] && n.overflows == []
      ensures n.address != NULL && n.address !in old(nodes) && nodes == old(nodes)[n.address := Blank] && old(Span()) <= Span()
      ensures n.Readable(this) && n.View(this) == []
    {
      hide Allocator.Valid, LiveOf, AllAt, Untouched, Owners, Shares, Reowned;
      ghost var b, live := allocator.memory.bytes, allocator.Live();
      HasFront();
      var a := allocator.Allocate();
      n := new Node(a, kind, fixed);
      FrontKept(b, allocator.memory.bytes, live);
      NewShare(nodes, owner, live, a);
      OthersKept(b, allocator.headerAddr, live, live, nodes);
      assert nodes - {a} == nodes;
      OwnersAfterPut(nodes, owner, live, live, live + {a}, a, Blank);
      OneMore(a, Blank);
      owner := Reowned(owner, live, live + {a}, a);
      nodes := nodes[a := Blank];
    }

    lemma OneMore(a: Address, r: NodeRec)
      requires AllAt(allocator.memory.bytes, ps, codec, nodes - {a})
      requires !r.Blank? ==> NodeAt(allocator.memory.bytes, ps, codec, a, r)
      ensures AllAt(allocator.memory.bytes, ps, codec, nodes[a := r])
    {
      hide Encode, Holds, NumOverflowPages, AllFit, Slotted;
      var nodes' := nodes[a := r];
      forall x | x in nodes'
        ensures NodeAt(allocator.memory.bytes, ps, codec, x, nodes'[x])
      {
        assert x == a || x in nodes - {a};
      }
    }

    /** Frees the pages of a node. */
    method DeallocateNode(n: Node)
      requires Valid() && n.address in nodes && n.overflows == Overflows(nodes[n.address])
      modifies Footprint()
      ensures Valid() && Front() == old(Front())
      ensures nodes == old(nodes) - {n.address} && old(Span()) <= Span()
    {
      hide Allocator.Valid, LiveOf, AllAt, Untouched, Owners, Shares;
      ghost var b, live, a := allocator.memory.bytes, allocator.Live(), n.address;
      ghost var p := PagesOf(a, nodes[a]);
      ghost var others := live - SetOf(p);
      OwnShare(nodes, owner, live, a);
      HasFront();
      FreePages(n, others);
      FrontKept(b, allocator.memory.bytes, others);
      OthersKept(b, allocator.headerAddr, live, others, nodes - {a});
      OwnersAfterFree(nodes, owner, live, a);
      nodes, owner := nodes - {a}, owner - SetOf(p);
    }

    /** Frees the overflow pages of a node, then its first page. */
    method FreePages(n: Node, ghost others: set<Address>)
      requires allocator.Valid() && allocator.allocationSize == ps && Shares(allocator.Live(), others, [n.address] + n.overflows)
      modifies allocator, allocator.memory
      ensures allocator.Valid() && allocator.Live() == others
      ensures Untouched(old(allocator.memory.bytes), allocator.memory.bytes, allocator.headerAddr, others, ps)
    {
      hide Allocator.Valid, LiveOf, Untouched, Shares;
      ghost var b, p := allocator.memory.bytes, [n.address] + n.overflows;
      UntouchedSelf(b, allocator.headerAddr, others, ps);
      assert p == [n.address] + n.overflows[0..];
      for i := 0 to |n.overflows|
        invariant allocator.Valid() && Shares(allocator.Live(), others, [n.address] + n.overflows[i..])
        invariant Untouched(b, allocator.memory.bytes, allocator.headerAddr, others, ps)
      {
        FreeOne(n.overflows[i], [n.address] + n.overflows[i..], 1, others, b);
        assert [n.address] + n.overflows[i + 1..] == ([n.address] + n.overflows[i..])[..1] + ([n.address] + n.overflows[i..])[2..];
      }
      assert [n.address] + n.overflows[|n.overflows|..] == [n.address];
      FreeOne(n.address, [n.address], 0, others, b);
      assert [n.address][..0] + [n.address][1..] == [];
      NothingLeft(allocator.Live(), others);
    }

    lemma NothingLeft(live: set<Address>, others: set<Address>)
      requires Shares(live, others, [])
      ensures live == others
    {
    }

    method FreeOne(page: Address, ghost p: seq<Address>, ghost k: nat, ghost others: set<Address>, ghost b: Bytes)
      requires allocator.Valid() && allocator.allocationSize == ps && Shares(allocator.Live(), others, p) && k < |p| && p[k] == page
      requires Untouched(b, allocator.memory.bytes, allocator.headerAddr, others, ps)
      modifies allocator, allocator.memory
      ensures allocator.Valid() && Shares(allocator.Live(), others, p[..k] + p[k + 1..])
      ensures Untouched(b, allocator.memory.bytes, allocator.headerAddr, others, ps)
    {
      hide Allocator.Valid, LiveOf, Untouched, Shares;
      ghost var b1 := allocator.memory.bytes;
      SharesWithout(allocator.Live(), others, p, k);
      allocator.Deallocate(page);
      UntouchedFewer(b1, allocator.memory.bytes, allocator.headerAddr, allocator.Live(), others, ps);
      UntouchedTwice(b, b1, allocator.memory.bytes, allocator.headerAddr, others, ps);
    }

    /** Writes the keys behind what has been written. */
    method WriteKeys(w: NodeWriter, n: Node, ghost h: Bytes, ghost body: Bytes, ghost es: seq<Entry>, ghost b: Bytes)
      requires w.Valid() && w.content == w.Text(h, body) && |h| == OVERFLOW_ADDRESS_OFFSET && n.Holding(es) && Sound(codec) && AllFit(codec, es)
      requires Untouched(b, w.allocator.memory.bytes, w.allocator.headerAddr, w.others, w.ps)
      modifies w`overflows, w`content, w`maxOffset, w.allocator, w.allocator.memory
      ensures w.Valid() && w.content == w.Text(h, body + KeyBytes(codec, es))
      ensures Untouched(b, w.allocator.memory.bytes, w.allocator.headerAddr, w.others, w.ps)
    {
      hide NodeWriter.Valid, NodeWriter.Text, LiveOf, Untouched, KeyBytes, U32, AllFit, AllBytes;
      assert body + KeyBytes(codec, es[..0]) == body by {
        assert KeyBytes(codec, []) == [] by { NoKeys(); }
        assert es[..0] == [];
      }
      for i := 0 to |n.entries|
        invariant w.Valid() && w.content == w.Text(h, body + KeyBytes(codec, es[..i])) && n.Holding(es)
        invariant Untouched(b, w.allocator.memory.bytes, w.allocator.headerAddr, w.others, w.ps)
      {
        ghost var sofar := body + KeyBytes(codec, es[..i]);
        ghost var k, b1 := es[i].key, w.allocator.memory.bytes;
        var bytes := codec.enc(Held(n.entries[i].key));
        PartsAreBytes(es, i);
        if codec.fixedSize.None? {
          w.Append(U32(|bytes|), h, sofar);
          ghost var b2 := w.allocator.memory.bytes;
          w.Append(bytes, h, sofar + U32(|bytes|));
          UntouchedTwice(b1, b2, w.allocator.memory.bytes, w.allocator.headerAddr, w.others, w.ps);
          assert sofar + U32(|bytes|) + bytes == sofar + KeyBlob(codec, k);
        } else {
          w.Append(bytes, h, sofar);
          assert sofar + bytes == sofar + KeyBlob(codec, k);
        }
        KeyStep(codec, es, i);
        assert sofar + KeyBlob(codec, k) == body + KeyBytes(codec, es[..i + 1]);
        UntouchedTwice(b, b1, w.allocator.memory.bytes, w.allocator.headerAddr, w.others, w.ps);
      }
      assert es[..|es|] == es;
    }

    /** What is written of an entry are bytes. */
    lemma PartsAreBytes(es: seq<Entry>, i: nat)
      requires Sound(codec) && AllFit(codec, es) && i < |es|
      ensures AllBytes(U32(|codec.enc(es[i].key)|)) && AllBytes(codec.enc(es[i].key))
      ensures AllBytes(U32(|es[i].value|)) && AllBytes(es[i].value) && codec.has(es[i].key)
    {
      hide U32, AllBytes;
      FieldsFit(|codec.enc(es[i].key)|);
      FieldsFit(|es[i].value|);
    }

    lemma NoKeys()
      ensures KeyBytes(codec, []) == [] && ValueBytes([]) == []
    {
    }

    /** Writes the values behind what has been written. */
    method WriteValues(w: NodeWriter, n: Node, ghost h: Bytes, ghost body: Bytes, ghost es: seq<Entry>, ghost b: Bytes)
      requires w.Valid() && w.content == w.Text(h, body) && |h| == OVERFLOW_ADDRESS_OFFSET && n.Holding(es) && Sound(codec) && AllFit(codec, es)
      requires Untouched(b, w.allocator.memory.bytes, w.allocator.headerAddr, w.others, w.ps)
      modifies w`overflows, w`content, w`maxOffset, w.allocator, w.allocator.memory
      ensures w.Valid() && w.content == w.Text(h, body + ValueBytes(es))
      ensures Untouched(b, w.allocator.memory.bytes, w.allocator.headerAddr, w.others, w.ps)
    {
      hide NodeWriter.Valid, NodeWriter.Text, LiveOf, Untouched, ValueBytes, U32, AllFit, AllBytes;
      assert body + ValueBytes(es[..0]) == body by {
        assert ValueBytes([]) == [] by { NoKeys(); }
        assert es[..0] == [];
      }
      for i := 0 to |n.entries|
        invariant w.Valid() && w.content == w.Text(h, body + ValueBytes(es[..i])) && n.Holding(es)
        invariant Untouched(b, w.allocator.memory.bytes, w.allocator.headerAddr, w.others, w.ps)
      {
        ghost var sofar := body + ValueBytes(es[..i]);
        ghost var b1 := w.allocator.memory.bytes;
        var v := Held(n.entries[i].value);
        PartsAreBytes(es, i);
        w.Append(U32(|v|), h, sofar);
        ghost var b2 := w.allocator.memory.bytes;
        w.Append(v, h, sofar + U32(|v|));
        UntouchedTwice(b1, b2, w.allocator.memory.bytes, w.allocator.headerAddr, w.others, w.ps);
        UntouchedTwice(b, b1, w.allocator.memory.bytes, w.allocator.headerAddr, w.others, w.ps);
        ValueStep(es, i);
        assert sofar + U32(|v|) + v == body + ValueBytes(es[..i + 1]);
      }
      assert es[..|es|] == es;
    }

    /** Writes the header, the children, the keys and the values of a node, in that order. */
    method WriteParts(w: NodeWriter, n: Node, h: Bytes, ghost es: seq<Entry>)
      requires w.Valid() && w.content == [] && |h| == OVERFLOW_ADDRESS_OFFSET && n.Holding(es) && Sound(codec) && AllFit(codec, es)
      requires AllBytes(h) && Writable(w.allocator.memory.bytes, ChildBytes(n.children))
      modifies w`overflows, w`content, w`maxOffset, w.allocator, w.allocator.memory
      ensures w.Valid() && w.content == w.Text(h, ChildBytes(n.children) + KeyBytes(codec, es) + ValueBytes(es))
      ensures Untouched(old(w.allocator.memory.bytes), w.allocator.memory.bytes, w.allocator.headerAddr, w.others, w.ps)
    {
      hide NodeWriter.Valid, NodeWriter.Text, LiveOf, Untouched, ChildBytes, KeyBytes, ValueBytes, AllBytes, Writable, AllFit;
      ghost var b := w.allocator.memory.bytes;
      w.Begin(h);
      NoSmaller(b, w.allocator.memory.bytes, w.allocator.headerAddr, w.others, w.ps);
      WritableLater(b, w.allocator.memory.bytes, ChildBytes(n.children));
      ghost var b1, cs := w.allocator.memory.bytes, ChildBytes(n.children);
      w.Append(ChildBytes(n.children), h, []);
      assert [] + cs == cs;
      UntouchedTwice(b, b1, w.allocator.memory.bytes, w.allocator.headerAddr, w.others, w.ps);
      WriteKeys(w, n, h, cs, es, b);
      WriteValues(w, n, h, cs + KeyBytes(codec, es), es, b);
    }

    /** Writes the string of a node to its pages. */
    method WritePages(n: Node, ghost others: set<Address>, ghost es: seq<Entry>)
      requires allocator.Valid() && allocator.allocationSize == ps && Sound(codec)
      requires Shares(allocator.Live(), others, [n.address] + n.overflows) && Heads(allocator.memory.bytes, n.overflows)
      requires n.Holding(es) && AllFit(codec, es) && |n.entries| < 0x1_0000
      requires forall j :: 0 <= j < |n.children| ==> n.children[j] < Span()
      modifies allocator, allocator.memory, n`overflows
      ensures allocator.Valid() && Shares(allocator.Live(), others, [n.address] + n.overflows)
      ensures NodeAt(allocator.memory.bytes, ps, codec, n.address, NodeRec(n.kind, es, n.children, n.overflows))
      ensures Untouched(old(allocator.memory.bytes), allocator.memory.bytes, allocator.headerAddr, others, ps)
    {
      hide Allocator.Valid, LiveOf, Untouched, Shares, Heads, U64, ChildBytes, KeyBytes, ValueBytes, NodeHeader, Holds, NumOverflowPages, AllFit, AllBytes, Writable;
      ghost var b := allocator.memory.bytes;
      var w := new NodeWriter(allocator, n.address, n.overflows, ps, others);
      var h := NodeHeader(n.kind, |n.entries|);
      HeaderIsBytes(n.kind, |n.entries|);
      ChildrenWritable(b, n.children);
      WriteParts(w, n, h, es);
      ghost var b2, ov := allocator.memory.bytes, w.overflows;
      n.overflows := w.Finish();
      UntouchedTwice(b, b2, allocator.memory.bytes, allocator.headerAddr, others, ps);
      w.PatchText(h, ChildBytes(n.children) + KeyBytes(codec, es) + ValueBytes(es), ov, n.overflows);
      assert w.content == Encode(codec, NodeRec(n.kind, es, n.children, n.overflows));
    }

    lemma HeaderIsBytes(kind: NodeType, n: nat)
      requires n < 0x1_0000
      ensures AllBytes(NodeHeader(kind, n))
    {
      hide U16;
      FieldsFit(n);
      BytesJoin(NODE_MAGIC + [2, if kind.Leaf? then 0 else 1], U16(n));
    }

    lemma {:induction false} ChildrenWritable(b: Bytes, cs: seq<Address>)
      requires forall j :: 0 <= j < |cs| ==> cs[j] < |b|
      ensures Writable(b, ChildBytes(cs))
    {
      hide U64;
      if cs != [] {
        var n := |cs| - 1;
        ChildrenWritable(b, cs[..n]);
        FieldsFit(cs[n]);
        BytesJoin(ChildBytes(cs[..n]), U64(cs[n]));
      }
    }

    /** Writes a V1 node to its page. */
    method WriteFixed(n: Node, ghost others: set<Address>, ghost es: seq<Entry>) returns (ghost r: NodeRec)
      requires allocator.Valid() && allocator.allocationSize == ps && HasSlots(codec, ps)
      requires Shares(allocator.Live(), others, [n.address]) && n.overflows == []
      requires n.Holding(es) && AllFit(codec, es) && Sound(codec) && |n.entries| <= CAPACITY
      requires Shaped(n.kind, |n.entries|, |n.children|) && 0 < |n.entries| && Sorted(es)
      requires forall j :: 0 <= j < |n.children| ==> n.children[j] < Span()
      modifies allocator.memory
      ensures allocator.Valid() && r.FixedRec? && SavedAs(r, n.kind, es, n.children)
      ensures NodeAt(allocator.memory.bytes, ps, codec, n.address, r)
      ensures Untouched(old(allocator.memory.bytes), allocator.memory.bytes, allocator.headerAddr, others, ps)
    {
      hide Allocator.Valid, LiveOf, Untouched, Heads, Holds, ImageHolds, AllFit, MaxNodeSize;
      ghost var b := allocator.memory.bytes;
      assert if n.kind.Leaf? then |n.children| == 0 else |n.children| == |n.entries| + 1;
      assert 0 < |n.entries| + |n.children|;
      assert forall i :: 0 < i < |es| ==> es[i - 1].key < es[i].key;
      allocator.LiveApart();
      assert [n.address][0] == n.address && n.address in SetOf([n.address]);
      UntouchedSelf(b, allocator.headerAddr, others, ps);
      var entries := n.LoadedEntries(es);
      FitSlots(es);
      SaveSlots(allocator, n.address, codec, codec.slots.value, n.kind, entries, n.children, b, others);
      r := FixedRec(n.kind, es, n.children, ImageOf(allocator, n.address));
      OnePage(allocator.memory.bytes, n.address, r.image);
      assert PagesOf(n.address, r) == [n.address];
    }

    lemma FitSlots(es: seq<Entry>)
      requires AllFit(codec, es) && codec.slots.Some? && Sound(codec)
      ensures AllFitSlots(codec, codec.slots.value, es)
    {
    }

    lemma OnePage(b: Bytes, a: Address, image: Bytes)
      requires a + ps <= |b| && image == b[a..a + ps]
      ensures Holds(b, [a], ps, image) && Heads(b, [])
    {
    }

    /** Saves a node in its layout: a V1 node to its page, a V2 node to as many pages as it needs. */
    method SaveNode(n: Node)
      requires Valid() && n.Readable(this) && AllFit(codec, n.View(this)) && Known(n.children) && |n.entries| < 0x1_0000
      requires n.fixed ==> 0 < |n.entries| <= CAPACITY && Shaped(n.kind, |n.entries|, |n.children|) && Sorted(n.View(this))
      modifies Footprint(), n`entries, n`overflows
      ensures Valid() && Front() == old(Front())
      ensures n.address in nodes && SavedAs(nodes[n.address], n.kind, old(n.View(this)), n.children)
      ensures nodes == old(nodes)[n.address := nodes[n.address]] && old(Span()) <= Span()
      ensures n.Readable(this) && n.View(this) == old(n.View(this)) && n.AllLoaded()
    {
      hide Allocator.Valid, LiveOf, AllAt, Untouched, Owners, Shares, Reowned, Encode, Holds, KeyOf, ValueOf, AllFit, Slotted, HasSlots, Sorted, Genuine;
      KnownWithin(n.children);
      n.LoadFrom(0, this);
      ghost var b, live, a, es := allocator.memory.bytes, allocator.Live(), n.address, n.View(this);
      ghost var others := live - SetOf(PagesOf(a, nodes[a]));
      OwnShare(nodes, owner, live, a);
      HasFront();
      n.LoadedHolds(this);
      Ready(a);
      ghost var r: NodeRec;
      if n.fixed {
        assert PagesOf(a, nodes[a]) == [a];
        r := WriteFixed(n, others, es);
      } else {
        WritePages(n, others, es);
        r := NodeRec(n.kind, es, n.children, n.overflows);
      }
      FrontKept(b, allocator.memory.bytes, others);
      OthersKept(b, allocator.headerAddr, live, others, nodes - {a});
      OwnersAfterPut(nodes, owner, live, others, allocator.Live(), a, r);
      OneMore(a, r);
      owner := Reowned(owner, others, allocator.Live(), a);
      nodes := nodes[a := r];
      n.LoadedView(this);
    }
  }
}
