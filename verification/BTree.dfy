/** The B-tree map: a class over stored pages, proved against the sorted sequence of its entries. */
module BTree {
  import opened Types
  import opened SortedSeq
  import opened Weaving
  import opened Trees
  import opened Restructure
  import opened TreeOps
  import opened Layout
  import opened PageTrees
  import opened StoredOps
  import opened Memories
  import opened Allocators
  import opened Paging
  import opened Ownership
  import opened Nodes
  import opened Accounting
  import opened Headers
  import opened FixedNodes

  class BTreeMap {
    const store: NodeStore
    var rootAddr: Address
    var length: nat

    const version: Version

    ghost predicate Fixed() {
      store.allocator.headerAddr == ALLOCATOR_OFFSET && store.ps == PageBytes(version) && store.codec.slots == SlotsOf(version) && VersionFits(version)
    }

    function MapBytes(): (s: Bytes)
      reads this
      ensures |s| == PACKED_HEADER_SIZE
    {
      MapHeader(Header(version, rootAddr, length))
    }

    /** The objects a map is made of. */
    ghost function Repr(): set<object> {
      {this} + store.Footprint()
    }

    /** The node in memory is the top node of `t`. */
    ghost predicate Is(n: Node, t: Tree)
      reads n, store
    {
      && n.Readable(store)
      && n.address == t.addr && n.kind == KindOf(t)
      && n.View(store) == t.entries && n.children == Roots(t.children)
    }

    /** What every step relies on: sound pages, and a header that is up to date. */
    ghost predicate Steady()
      reads this, store.Footprint()
    {
      Fixed() && store.Valid() && MapBytes() <= store.Front()
    }

    /** The top node of `t` can be saved in either layout. */
    ghost predicate Savable(t: Tree)
      reads store
    {
      SavableAmong(store.nodes, t)
    }

    ghost predicate SavableAmong(nodes: Pages, t: Tree) {
      && AllFit(store.codec, t.entries) && 0 < |t.entries| <= CAPACITY && Sorted(t.entries)
      && Shaped(KindOf(t), |t.entries|, |t.children|) && Rooted(nodes, t.children)
    }

    /** The trees have nodes at their tops. */
    ghost predicate Rooted(nodes: Pages, ts: seq<Tree>) {
      forall x :: x in ts ==> x.addr in nodes
    }

    lemma StoredRooted(ts: seq<Tree>)
      requires AllStored(store.nodes, ts)
      ensures Rooted(store.nodes, ts)
    {
      forall x | x in ts
        ensures x.addr in store.nodes
      {
        var j :| 0 <= j < |ts| && ts[j] == x;
        assert Stored(store.nodes, ts[j]);
      }
    }

    lemma ChildRooted(t: Tree, i: nat)
      requires AllStored(store.nodes, t.children) && i < |t.children|
      ensures Rooted(store.nodes, t.children[i].children)
    {
      assert Stored(store.nodes, t.children[i]);
      StoredRooted(t.children[i].children);
    }

    /** A node that is stored can be saved. */
    lemma StoredSavable(t: Tree, h: nat)
      requires store.Valid() && Stored(store.nodes, t) && Shape(t, h) && Sorted(Flatten(t)) && 0 < |t.entries|
      ensures Savable(t)
    {
      hide NodeStore.Valid, AllFit, Flatten, Sorted, Rooted;
      TopFits(t);
      TopShape(t, h);
      EntriesSorted(t);
      StoredRooted(t.children);
    }

    lemma RootKnown(f: multiset<Address>, t: Tree)
      requires Owned(store.nodes, f, t) && (rootAddr == t.addr || rootAddr in f)
      ensures rootAddr in store.nodes
    {
      assert t.addr in Addrs(t);
      assert rootAddr in multiset(store.nodes.Keys);
    }

    /** The length fits its field, in a memory that addresses can tell. */
    ghost predicate LengthFits(n: nat)
      reads store.allocator.memory
    {
      store.Span() <= ADDRESS_SPACE ==> n < ADDRESS_SPACE
    }

    /** A header that is made of bytes tells so. */
    lemma SteadyLength()
      requires Steady()
      ensures LengthFits(length)
    {
      hide Allocator.Valid, LiveOf, Owners, AllAt, MapHeader, AllBytes;
      HeaderInMemory();
      store.HasFront();
      if store.Span() <= ADDRESS_SPACE {
        SliceIsBytes(store.allocator.memory.bytes, PACKED_HEADER_SIZE);
        MapHeaderIsBytes(Header(version, rootAddr, length));
      }
    }

    lemma SliceIsBytes(b: Bytes, n: nat)
      requires AllBytes(b) && n <= |b|
      ensures AllBytes(b[0..n])
    {
    }

    /** There is room for one more entry to be counted: a map has at most CAPACITY entries for each page. */
    lemma RoomToCount()
      requires Valid()
      ensures LengthFits(length + 1)
    {
      hide Flatten, Addrs, Stored, Shape, Sorted, MapHeader, Allocator.Valid, LiveOf, Owners, AllAt;
      var live := store.allocator.Live();
      store.allocator.LiveCount();
      if rootAddr != NULL {
        EntriesBound(tree, height);
        assert |multiset(store.nodes.Keys)| == |store.nodes.Keys|;
        forall a | a in store.nodes
          ensures a in live
        {
          NodeLive(store.nodes, store.owner, live, a);
        }
        SubsetCount(store.nodes.Keys, live);
        PagesTake(|live|, store.ps, store.Span());
      }
    }

    lemma SubsetCount(a: set<Address>, b: set<Address>)
      requires a <= b
      ensures |a| <= |b|
    {
      assert b == a + (b - a);
    }

    lemma PagesTake(n: nat, ps: nat, span: nat)
      requires n * ps <= span && 128 <= ps
      ensures n * 128 <= span
    {
      assert n * ps == n * 128 + n * (ps - 128);
    }

    /** What is stored fits the slots, if there are any. */
    lemma TopFits(t: Tree)
      requires store.Valid() && TopStored(store.nodes, t)
      ensures AllFit(store.codec, t.entries)
    {
      hide NodeStore.Valid, AllFit;
      store.Ready(t.addr);
    }

    method SaveHeader()
      requires Fixed() && store.Valid() && (rootAddr == NULL || rootAddr in store.nodes) && LengthFits(length)
      modifies store.Footprint()
      ensures Steady() && store.nodes == old(store.nodes) && old(store.Span()) <= store.Span()
    {
      hide NodeStore.Valid, NodeStore.Front, Denote, InPages, Node.LaidOut, MapHeader;
      assert rootAddr != NULL ==> store.Known([rootAddr]);
      if rootAddr != NULL {
        store.KnownWithin([rootAddr]);
        assert [rootAddr][0] < store.Span();
      }
      MapHeaderIsBytes(Header(version, rootAddr, length));
      store.WriteFront(MapBytes());
    }

    // ---- The map

    /** The tree held in the pages, while there is a root. */
    ghost var tree: Tree
    ghost var height: nat

    /** The full invariant: sound pages that hold exactly the nodes of the tree, a header that is up
        to date, and a sorted B-tree with as many entries as the length says. */
    ghost predicate Valid()
      reads this, store.Footprint()
    {
      && Steady()
      && if rootAddr == NULL then length == 0 && store.nodes == map[]
         else
           && tree.addr == rootAddr && Stored(store.nodes, tree) && Owned(store.nodes, multiset{}, tree)
           && Shape(tree, height) && 1 <= |tree.entries|
           && Sorted(Flatten(tree)) && length == |Flatten(tree)|
    }

    /** The entries of the map in key order. */
    ghost function Contents(): seq<Entry>
      reads this
    {
      if rootAddr == NULL then [] else Flatten(tree)
    }

    /** A new map takes the whole memory. */
    constructor (memory: Memory, codec: Codec, keyBound: Option<nat>, valueBound: Option<nat>)
      requires Sound(codec) && Genuine(memory.bytes) && MINIMUM_PAGE_SIZE <= PageBytes(NewVersion(keyBound, valueBound))
      modifies memory
      ensures Valid() && Contents() == [] && store.codec == codec.(slots := None) && store.allocator.memory == memory
      ensures fresh(store) && fresh(store.allocator)
    {
      hide NodeStore.Valid, NodeStore.Front, MapHeader, Allocator.Valid, LiveOf, MaxNodeSize;
      var v := NewVersion(keyBound, valueBound);
      var allocator := new Allocator(memory, ALLOCATOR_OFFSET, PageBytes(v));
      store := new NodeStore(allocator, codec.(slots := None), PageBytes(v));
      version, rootAddr, length := v, NULL, 0;
      tree, height := Tree(NULL, [], []), 0;
      new;
      SaveHeader();
    }

    /** A new V1 map, for keys and values of bounded size. */
    constructor NewV1(memory: Memory, codec: Codec, maxKey: nat, maxValue: nat)
      requires Sound(codec) && Genuine(memory.bytes) && MaxNodeSize(maxKey, maxValue) <= MAX_LENGTH
      modifies memory
      ensures Valid() && Contents() == [] && store.codec == codec.(slots := Some(Room(maxKey, maxValue))) && store.allocator.memory == memory
      ensures fresh(store) && fresh(store.allocator) && version == V1(maxKey, maxValue)
    {
      hide NodeStore.Valid, NodeStore.Front, MapHeader, Allocator.Valid, LiveOf;
      var v := V1(maxKey, maxValue);
      var allocator := new Allocator(memory, ALLOCATOR_OFFSET, PageBytes(v));
      store := new NodeStore(allocator, codec.(slots := SlotsOf(v)), PageBytes(v));
      version, rootAddr, length := v, NULL, 0;
      tree, height := Tree(NULL, [], []), 0;
      new;
      SaveHeader();
    }

    /** A map found in memory: everything but the tree is read from the two headers. A V1 map is a V2 map from now
        on; its nodes stay V1 nodes. */
    constructor Load(memory: Memory, codec: Codec, ghost was: BTreeMap)
      requires was.Valid() && was.store.allocator.memory == memory && was.store.codec == codec.(slots := was.store.codec.slots)
      ensures Valid() && Contents() == was.Contents() && store.codec == was.store.codec && store.allocator.memory == memory
      ensures !version.V1? && store.nodes == was.store.nodes && rootAddr == was.rootAddr && length == was.length && store.ps == was.store.ps
      ensures fresh(store) && fresh(store.allocator)
    {
      hide NodeStore.Valid, MapHeader, Allocator.Valid, LiveOf, MaxNodeSize, ReadHeader, Stored, Owned, Sorted, Flatten, Shape;
      was.HeaderInMemory();
      var s := memory.Read(0, PACKED_HEADER_SIZE);
      HeaderRoundTrip(Header(was.version, was.rootAddr, was.length));
      SameHeader(Header(was.version, was.rootAddr, was.length));
      var h := ReadHeader(s).value;
      version, rootAddr, length := Migrated(h.version), h.root, h.length;
      var allocator := new Allocator.Load(memory, ALLOCATOR_OFFSET, was.store.allocator);
      store := new NodeStore.Load(allocator, codec.(slots := SlotsOf(h.version)), PageBytes(Migrated(h.version)), was.store);
      tree, height := was.tree, was.height;
    }

    /** The header can be read from the start of the memory. */
    lemma HeaderInMemory()
      requires Steady()
      ensures store.allocator.Valid() && store.allocator.allocationSize == store.ps
      ensures PACKED_HEADER_SIZE <= |store.allocator.memory.bytes|
      ensures store.allocator.memory.bytes[0..PACKED_HEADER_SIZE] == MapBytes()
    {
      hide Allocator.Valid, MapHeader, LiveOf, Owners, AllAt;
      store.HasFront();
      assert store.Front()[..PACKED_HEADER_SIZE] == store.allocator.memory.bytes[0..PACKED_HEADER_SIZE];
    }

    lemma ContentsSorted()
      requires Valid()
      ensures Sorted(Contents()) && length == |Contents()|
    {
      hide Flatten, NodeStore.Valid, NodeStore.Front, MapHeader;
    }

    /** Every entry of a stored tree can be stored. */
    lemma TreeFits(t: Tree, h: nat)
      requires store.Valid() && Stored(store.nodes, t) && Shape(t, h)
      ensures AllFit(store.codec, Flatten(t))
      decreases h
    {
      hide NodeStore.Valid, AllFit;
      TopFits(t);
      TopShape(t, h);
      if h == 0 {
        LeafFlatten(t);
      } else {
        forall i | 0 <= i < |t.children|
          ensures AllFit(store.codec, Parts(t)[i])
        {
          ChildStored(store.nodes, t, i);
          ChildShape(t, h, i);
          TreeFits(t.children[i], h - 1);
        }
        WeaveFits(t.entries, Parts(t));
      }
    }

    lemma {:induction false} WeaveFits(es: seq<Entry>, ps: seq<Part>)
      requires |ps| == |es| + 1 && AllFit(store.codec, es) && forall i :: 0 <= i < |ps| ==> AllFit(store.codec, ps[i])
      ensures AllFit(store.codec, Weave(es, ps))
      decreases |es|
    {
      hide EntryFits;
      if es != [] {
        WeaveFits(es[1..], ps[1..]);
      }
    }

    /** An entry that is found can be stored again. */
    lemma FoundFits(key: Key)
      requires Valid() && Find(Contents(), key).Some?
      ensures EntryFits(store.codec, Entry(key, Find(Contents(), key).value))
    {
      hide NodeStore.Valid, NodeStore.Front, MapHeader, Flatten, Sorted, Owned, EntryFits, Find;
      EmptyFind(key);
      TreeFits(tree, height);
      var p := FoundAt(Contents(), key);
    }

    lemma EmptyFind(key: Key)
      ensures Find([], key) == None
    {
    }

    lemma RootStored()
      requires Valid() && rootAddr != NULL
      ensures rootAddr in store.nodes && Counted(store.nodes[rootAddr]) && store.Valid()
      ensures TopStored(store.nodes, tree) && AllStored(store.nodes, tree.children)
    {
      hide Flatten, NodeStore.Valid, NodeStore.Front, MapHeader;
      TopShape(tree, height);
    }

    method LoadRoot() returns (root: Node)
      requires Valid() && rootAddr != NULL
      ensures fresh(root) && Is(root, tree)
    {
      hide NodeStore.Valid, NodeStore.Front, MapHeader, Denote, InPages, Flatten, Sorted, Shape, Owned, Stored;
      RootStored();
      root := store.LoadNode(rootAddr);
    }

    /** Every allocated chunk is a page of one node of the tree, and is counted. */
    lemma Accounted()
      requires Valid()
      ensures store.allocator.numAllocated == |store.allocator.Live()|
      ensures rootAddr == NULL ==> store.allocator.Live() == {}
      ensures rootAddr != NULL ==> multiset(store.allocator.Live()) == PagesUnder(store.nodes, tree)
    {
      hide PagesUnder, Stored, Sorted, Flatten, Shape, InOrder, Imaged;
      if rootAddr != NULL {
        NoLeaks(store.nodes, store.owner, store.allocator.Live(), tree);
      } else {
        NoPages(store.nodes, store.owner, store.allocator.Live());
      }
    }

    method Insert(key: Key, value: Value) returns (r: Option<Value>)
      requires Valid() && EntryFits(store.codec, Entry(key, value))
      modifies this, store.Footprint()
      ensures Valid()
      ensures Contents() == Put(old(Contents()), key, value)
      ensures r == Find(old(Contents()), key)
    {
      hide NodeStore.Valid, NodeStore.Front, Denote, InPages, Node.LaidOut, MapHeader, Flatten, Addrs, Owned, Put, Find, EntryFits, AllFit;
      if rootAddr == NULL {
        r := InsertFirst(key, value);
      } else {
        var root := store.LoadNode(rootAddr);
        EntriesSorted(tree);
        TopFits(tree);
        var s := root.Search(key, store);
        if s.Found? {
          r := UpdateRoot(root, s.index, key, value);
        } else {
          r := InsertFromRoot(root, key, value);
        }
      }
    }

    /** What an insertion below a node relies on, besides the tree. */
    ghost predicate CanInsert(t: Tree, f: multiset<Address>, key: Key, value: Value)
      reads this, store, store.allocator.memory
    {
      EntryFits(store.codec, Entry(key, value)) && (rootAddr == t.addr || rootAddr in f) && LengthFits(length + 1)
    }

    /** Inserts an entry below the root, which grows first if it is full. */
    method InsertFromRoot(node: Node, key: Key, value: Value) returns (r: Option<Value>)
      requires Valid() && rootAddr != NULL && Is(node, tree) && EntryFits(store.codec, Entry(key, value))
      modifies this, store.Footprint(), node
      ensures Valid() && Contents() == Put(old(Contents()), key, value) && r == Find(old(Contents()), key)
    {
      hide NodeStore.Valid, NodeStore.Front, Denote, InPages, Node.LaidOut, MapHeader, Flatten, Addrs, Owned, Put, Find, EntryFits, AllFit;
      var root := node;
      RoomToCount();
      if CAPACITY <= |root.entries| {
        TopShape(tree, height);
        root := GrowRoot();
      }
      TopFits(tree);
      r, tree := InsertNonfull(root, key, value, tree, height, multiset{});
      PutSorted(old(Contents()), key, value);
    }

    /** The first entry of an empty map goes to a new leaf. */
    method InsertFirst(key: Key, value: Value) returns (r: Option<Value>)
      requires Valid() && rootAddr == NULL && EntryFits(store.codec, Entry(key, value))
      modifies this, store.Footprint()
      ensures Valid() && Contents() == Put([], key, value) && r == Find([], key)
    {
      hide NodeStore.Valid, NodeStore.Front, Denote, InPages, Node.LaidOut, MapHeader, EntryFits, AllFit, Shape, Flatten, Sorted, Put, Find, Addrs, Owned;
      RoomToCount();
      var node := PlaceLeaf();
      tree, height := Tree(rootAddr, [], []), 0;
      EmptyLeaf(tree);
      PutSorted([], key, value);
      r, tree := InsertNonfull(node, key, value, tree, height, multiset{});
      FirstEntry(key, value, r, tree, height);
    }

    lemma EmptyLeaf(t: Tree)
      requires t.entries == [] && t.children == []
      ensures Shape(t, 0) && Flatten(t) == [] && Sorted([]) && AllFit(store.codec, t.entries)
    {
      LeafFlatten(t);
    }

    /** With its first entry, a tree has one. */
    lemma FirstEntry(key: Key, value: Value, r: Option<Value>, t: Tree, h: nat)
      requires h == 0 && Shape(t, h) && Flatten(t) == Put([], key, value) && r == Find([], key)
      ensures r.None? && |Flatten(t)| == 1 && 1 <= |t.entries|
    {
      TopShape(t, h);
      LeafFlatten(t);
    }

    /** A new leaf as the root, still without entries and to be saved. */
    method PlaceLeaf() returns (node: Node)
      requires Valid() && rootAddr == NULL
      modifies this`rootAddr, store.Footprint()
      ensures fresh(node) && rootAddr != NULL && Steady() && Is(node, Tree(rootAddr, [], [])) && old(store.Span()) <= store.Span()
      ensures Owned(store.nodes, multiset{}, Tree(rootAddr, [], []))
    {
      hide NodeStore.Valid, NodeStore.Front, Denote, InPages, Node.LaidOut, MapHeader;
      SteadyLength();
      node := store.AllocateNode(Leaf, version.V1?);
      rootAddr := node.address;
      SaveHeader();
      assert store.nodes.Keys == {rootAddr} && Addrs(Tree(rootAddr, [], [])) == multiset{rootAddr};
    }

    method UpdateRoot(root: Node, i: nat, key: Key, value: Value) returns (r: Option<Value>)
      requires Valid() && rootAddr != NULL && Is(root, tree) && i < |tree.entries| && tree.entries[i].key == key
      requires EntryFits(store.codec, Entry(key, value)) && AllFit(store.codec, tree.entries)
      modifies this, store.Footprint(), root
      ensures Valid() && Contents() == Put(old(Contents()), key, value) && r == Find(old(Contents()), key)
    {
      hide NodeStore.Valid, NodeStore.Front, Denote, InPages, Node.LaidOut, MapHeader, EntryFits, AllFit;
      var old_: Value;
      TopShape(tree, height);
      EntriesSorted(tree);
      StoredRooted(tree.children);
      WithEntryShape(tree, i, Entry(key, value), height);
      PutSorted(Contents(), key, value);
      old_, tree := UpdateValue(root, i, value, tree, multiset{});
      r := Some(old_);
    }

    /** A full root gets a new root above it, and is split. */
    method GrowRoot() returns (root: Node)
      requires Valid() && rootAddr != NULL && |tree.entries| == CAPACITY
      modifies this, store.Footprint()
      ensures Valid() && fresh(root) && rootAddr != NULL && Is(root, tree) && |tree.entries| == 1 && Stored(store.nodes, tree)
      ensures length == old(length) && Contents() == old(Contents()) && old(store.Span()) <= store.Span()
    {
      hide NodeStore.Valid, NodeStore.Front, Denote, InPages, Node.LaidOut, MapHeader, Flatten, Sorted, Addrs, AddrsOf, Stored;
      root := PlaceRoot();
      ghost var t := Tree(rootAddr, [], [tree]);
      LoneChild(t);
      assert AllFit(store.codec, t.entries);
      ghost var a := SplitChildAt(root, 0, t, height + 1, multiset{});
      SplitChildMeaning(t, 0, a, height + 1);
      tree, height := SplitChild(t, 0, a), height + 1;
    }

    /** A new root with the old one as its only child, still to be split and saved. */
    method PlaceRoot() returns (root: Node)
      requires Valid() && rootAddr != NULL && |tree.entries| == CAPACITY
      modifies this`rootAddr, store.Footprint()
      ensures fresh(root) && rootAddr != NULL && Steady() && Is(root, Tree(rootAddr, [], [tree])) && old(store.Span()) <= store.Span()
      ensures AllStored(store.nodes, [tree]) && Owned(store.nodes, multiset{}, Tree(rootAddr, [], [tree]))
    {
      hide NodeStore.Valid, NodeStore.Front, Denote, InPages, Node.LaidOut, MapHeader, Flatten, Sorted, Addrs, AddrsOf, Stored, AllStored, Owned;
      ghost var nodes := store.nodes;
      SteadyLength();
      root := store.AllocateNode(Internal, version.V1?);
      root.children := [rootAddr];
      NewRoot(nodes, root.address, tree);
      rootAddr := root.address;
      SaveHeader();
      assert Roots([tree]) == root.children;
      assert root.View(store) == [];
    }

    lemma NewRoot(nodes: Pages, a: Address, t: Tree)
      requires Stored(nodes, t) && Owned(nodes, multiset{}, t) && a !in nodes
      ensures AllStored(nodes[a := Blank], [t]) && Owned(nodes[a := Blank], multiset{}, Tree(a, [], [t]))
    {
      AddrsOne(t);
      AllStoredFrame(nodes, nodes[a := Blank], [t]);
      assert multiset(nodes[a := Blank].Keys) == multiset(nodes.Keys) + multiset{a};
    }

    method Get(key: Key) returns (r: Option<Value>)
      requires Valid()
      ensures r == Find(Contents(), key)
    {
      hide NodeStore.Valid, NodeStore.Front, Denote, InPages, Node.LaidOut, MapHeader;
      if rootAddr == NULL {
        r := None;
      } else {
        r := Traverse(rootAddr, key, tree, height);
      }
    }

    method ContainsKey(key: Key) returns (b: bool)
      requires Valid()
      ensures b <==> Find(Contents(), key).Some?
    {
      hide NodeStore.Valid, NodeStore.Front, Denote, InPages, Node.LaidOut, MapHeader;
      var r := Get(key);
      b := r.Some?;
    }

    /** Looks for the key from the node at `addr` down. */
    method Traverse(addr: Address, key: Key, ghost t: Tree, ghost h: nat) returns (r: Option<Value>)
      requires store.Valid() && Stored(store.nodes, t) && t.addr == addr && Shape(t, h) && Sorted(Flatten(t))
      ensures r == Find(Flatten(t), key)
      decreases h
    {
      hide NodeStore.Valid, NodeStore.Front, Denote, InPages, Node.LaidOut, MapHeader;
      var node := store.LoadNode(addr);
      EntriesSorted(t);
      var s := node.Search(key, store);
      if s.Found? {
        FoundAtTop(t, s.index, []);
        var e := node.LoadEntry(s.index, store);
        r := Some(e.value);
      } else if node.kind.Leaf? {
        LeafMissing(t, s.index, key, []);
        r := None;
      } else {
        TopShape(t, h);
        InChild(t, s.index, key, [], h);
        ChildShape(t, h, s.index);
        ChildStored(store.nodes, t, s.index);
        r := Traverse(node.children[s.index], key, t.children[s.index], h - 1);
      }
    }

    method Remove(key: Key) returns (r: Option<Value>)
      requires Valid()
      modifies this, store.Footprint()
      ensures Valid()
      ensures Contents() == Drop(old(Contents()), key)
      ensures r == Find(old(Contents()), key)
    {
      hide NodeStore.Valid, NodeStore.Front, Denote, InPages, Node.LaidOut, MapHeader;
      if rootAddr == NULL {
        r := None;
      } else {
        var root := store.LoadNode(rootAddr);
        r := RemoveFromRoot(root, key);
      }
    }

    method RemoveFromRoot(root: Node, key: Key) returns (r: Option<Value>)
      requires Valid() && rootAddr != NULL && Is(root, tree)
      modifies this, store.Footprint(), root
      ensures Valid()
      ensures Contents() == Drop(old(Contents()), key)
      ensures r == Find(old(Contents()), key)
    {
      hide NodeStore.Valid, NodeStore.Front, Denote, InPages, Node.LaidOut, MapHeader, Flatten, Sorted, Shape, AllStored, Find, Drop, Addrs;
      DropSorted(Contents(), key);
      NoneLeft(Contents(), key);
      r, tree, height := RemoveHelper(root, key, tree, height, multiset{});
      store.NoNull();
    }

    lemma NoneLeft(c: seq<Entry>, key: Key)
      requires Sorted(c)
      ensures |Drop(c, key)| == |c| - (if Find(c, key).None? then 0 else 1)
    {
      DropMeaning(c, key);
      FindMeaning(c, key);
      MapSize(c);
      DropSorted(c, key);
      MapSize(Drop(c, key));
    }

    /** The entry with the greatest key, removed. */
    method PopLast() returns (r: Option<Entry>)
      requires Valid()
      modifies this, store.Footprint()
      ensures Valid()
      ensures r.None? <==> old(Contents()) == []
      ensures r.None? ==> Contents() == []
      ensures r.Some? ==> old(Contents()) == Contents() + [r.value]
    {
      hide NodeStore.Valid, NodeStore.Front, Denote, InPages, Node.LaidOut, MapHeader, Flatten, Sorted, Shape, Find, Drop, Addrs;
      if rootAddr == NULL {
        r := None;
      } else {
        RootStored();
        var root := LoadRoot();
        var e := GetMax(root, tree, height);
        DropLast(Contents());
        var v := RemoveFromRoot(root, e.key);
        r := if v.Some? then Some(Entry(e.key, v.value)) else None;
        FindLast(old(Contents()));
      }
    }

    /** The entry with the least key, removed. */
    method PopFirst() returns (r: Option<Entry>)
      requires Valid()
      modifies this, store.Footprint()
      ensures Valid()
      ensures r.None? <==> old(Contents()) == []
      ensures r.None? ==> Contents() == []
      ensures r.Some? ==> old(Contents()) == [r.value] + Contents()
    {
      hide NodeStore.Valid, NodeStore.Front, Denote, InPages, Node.LaidOut, MapHeader, Flatten, Sorted, Shape, Find, Drop, Addrs;
      if rootAddr == NULL {
        r := None;
      } else {
        RootStored();
        var root := LoadRoot();
        var e := GetMin(root, tree, height);
        DropFirst(Contents());
        FindAt(Contents(), 0);
        var v := RemoveFromRoot(root, e.key);
        r := if v.Some? then Some(Entry(e.key, v.value)) else None;
      }
    }

    method FirstKeyValue() returns (r: Option<Entry>)
      requires Valid()
      ensures r == if Contents() == [] then None else Some(Contents()[0])
    {
      hide NodeStore.Valid, NodeStore.Front, Denote, InPages, Node.LaidOut, MapHeader;
      if rootAddr == NULL {
        r := None;
      } else {
        var root := store.LoadNode(rootAddr);
        var e := GetMin(root, tree, height);
        r := Some(e);
      }
    }

    method LastKeyValue() returns (r: Option<Entry>)
      requires Valid()
      ensures r == if Contents() == [] then None else Some(Contents()[|Contents()| - 1])
    {
      hide NodeStore.Valid, NodeStore.Front, Denote, InPages, Node.LaidOut, MapHeader;
      if rootAddr == NULL {
        r := None;
      } else {
        var root := store.LoadNode(rootAddr);
        var e := GetMax(root, tree, height);
        r := Some(e);
      }
    }

    method ClearNew()
      requires Valid()
      modifies this, store.Footprint()
      ensures Valid() && Contents() == []
    {
      hide NodeStore.Valid, NodeStore.Front, Denote, InPages, Node.LaidOut, MapHeader;
      rootAddr, length := NULL, 0;
      store.Clear();
      SaveHeader();
    }

    // ---- Insertion

    /** Saves the top node of `t`. */
    method SaveNode(node: Node, ghost t: Tree)
      requires Steady() && Is(node, t) && Savable(t)
      modifies store.Footprint(), node`entries, node`overflows
      ensures Steady() && Is(node, t) && TopStored(store.nodes, t) && old(store.Span()) <= store.Span()
      ensures store.nodes == old(store.nodes)[t.addr := store.nodes[t.addr]]
    {
      hide NodeStore.Valid, NodeStore.Front, Denote, InPages, Node.LaidOut, MapHeader, AllFit, Sorted;
      store.SaveNode(node);
    }

    /** Loads child `i` of a node whose subtrees are stored. */
    method LoadChild(node: Node, i: nat, ghost t: Tree, ghost h: nat) returns (child: Node)
      requires store.Valid() && Is(node, t) && AllStored(store.nodes, t.children) && i < |t.children| && Shape(t, h)
      ensures fresh(child) && Is(child, t.children[i])
    {
      hide NodeStore.Valid, NodeStore.Front, Denote, InPages, Node.LaidOut, MapHeader;
      ChildShape(t, h, i);
      assert Stored(store.nodes, t.children[i]);
      child := store.LoadNode(node.children[i]);
    }

    /** Saves three nodes, one after the other. */
    method SaveThree(x: Node, y: Node, z: Node, ghost tx: Tree, ghost ty: Tree, ghost tz: Tree)
      requires Steady() && Is(x, tx) && Is(y, ty) && Is(z, tz)
      requires tx.addr != ty.addr && tx.addr != tz.addr && ty.addr != tz.addr
      requires Savable(tx) && Savable(ty) && Savable(tz)
      modifies store.Footprint(), x`entries, x`overflows, y`entries, y`overflows, z`entries, z`overflows
      ensures Steady() && Is(x, tx) && Is(y, ty) && Is(z, tz)
      ensures TopStored(store.nodes, tx) && TopStored(store.nodes, ty) && TopStored(store.nodes, tz)
      ensures store.nodes.Keys == old(store.nodes.Keys) && old(store.Span()) <= store.Span()
      ensures SameExcept(old(store.nodes), store.nodes, {tx.addr, ty.addr, tz.addr})
    {
      hide NodeStore.Valid, NodeStore.Front, Denote, InPages, Node.LaidOut, MapHeader, SavableAmong;
      SaveNode(x, tx);
      StaysSavable(old(store.nodes), ty);
      StaysSavable(old(store.nodes), tz);
      ghost var nodes := store.nodes;
      SaveNode(y, ty);
      StaysSavable(nodes, tz);
      SaveNode(z, tz);
    }

    /** The children of a node stay known while no node goes. */
    lemma StaysSavable(nodes: Pages, t: Tree)
      requires SavableAmong(nodes, t) && nodes.Keys <= store.nodes.Keys
      ensures Savable(t)
    {
      hide AllFit, Sorted;
    }

    /** Moves the upper half of a full node to a new page, still to be saved. */
    method SplitFull(node: Node, ghost c: Tree, ghost h: nat) returns (sibling: Node, median: Entry)
      requires Steady() && Is(node, c) && Shape(c, h) && |c.entries| == CAPACITY
      modifies store.Footprint(), node`entries, node`children
      ensures Steady() && fresh(sibling) && sibling.address !in old(store.nodes)
      ensures store.nodes == old(store.nodes)[sibling.address := Blank]
      ensures Is(node, LowHalf(c)) && Is(sibling, HighHalf(c, sibling.address)) && median == c.entries[B - 1] && old(store.Span()) <= store.Span()
    {
      hide NodeStore.Valid, NodeStore.Front, Denote, InPages, Node.LaidOut, MapHeader;
      assert node.kind.Internal? ==> |c.children| == CAPACITY + 1;
      sibling := store.AllocateNode(node.kind, version.V1?);
      median := node.Split(sibling, store);
      assert Roots(LowHalf(c).children) == node.children;
      assert Roots(HighHalf(c, sibling.address).children) == sibling.children;
    }

    /** Splits the full child `i` of `node` in two, the upper half going to a new page. */
    method SplitChildAt(node: Node, i: nat, ghost t: Tree, ghost h: nat, ghost f: multiset<Address>)
      returns (ghost a: Address)
      requires Steady() && Is(node, t) && Shape(t, h) && 0 < h && i <= |t.entries| < CAPACITY
      requires AllStored(store.nodes, t.children) && Owned(store.nodes, f, t) && AllFit(store.codec, t.entries)
      requires |t.children[i].entries| == CAPACITY && Sorted(Flatten(t))
      modifies store.Footprint(), node
      ensures Steady() && Is(node, SplitChild(t, i, a)) && Stored(store.nodes, SplitChild(t, i, a))
      ensures Owned(store.nodes, f, SplitChild(t, i, a)) && Agree(old(store.nodes), store.nodes, f) && old(store.Span()) <= store.Span()
    {
      hide NodeStore.Valid, NodeStore.Front, Denote, InPages, Node.LaidOut, MapHeader, AllFit, SavableAmong, Sorted, Flatten, Addrs, Shape, AddrsOf;
      TopShape(t, h);
      ghost var c := t.children[i];
      ghost var nodes := store.nodes;
      ChildShape(t, h, i);
      DistinctTops(nodes, f, t, i);
      TopFits(c);
      StoredRooted(t.children);
      ChildRooted(t, i);
      var fullChild := LoadChild(node, i, t, h);
      var sibling, median := SplitFull(fullChild, c, h - 1);
      a := sibling.address;
      AdoptSibling(node, i, sibling.address, median, t);
      SplitSavable(t, i, a, h);
      SaveThree(sibling, fullChild, node, HighHalf(c, a), LowHalf(c), SplitChild(t, i, a));
      SplitStored(nodes, store.nodes, f, t, i, a, h);
    }

    lemma SplitSavable(t: Tree, i: nat, a: Address, h: nat)
      requires Shape(t, h) && 0 < h && i <= |t.entries| < CAPACITY && |t.children[i].entries| == CAPACITY && Sorted(Flatten(t))
      requires AllFit(store.codec, t.entries) && AllFit(store.codec, t.children[i].entries)
      requires Rooted(store.nodes, t.children) && Rooted(store.nodes, t.children[i].children) && a in store.nodes
      ensures Savable(HighHalf(t.children[i], a)) && Savable(LowHalf(t.children[i])) && Savable(SplitChild(t, i, a))
    {
      hide EntryFits, Flatten;
      TopShape(t, h);
      ChildShape(t, h, i);
      TopShape(t.children[i], h - 1);
      ChildSorted(t, i);
      EntriesSorted(t.children[i]);
      SplitChildMeaning(t, i, a, h);
      EntriesSorted(SplitChild(t, i, a));
    }

    /** The median and the new sibling enter the node above. */
    method AdoptSibling(node: Node, i: nat, a: Address, median: Entry, ghost t: Tree)
      requires Is(node, t) && i <= |t.entries| && |t.children| == |t.entries| + 1 && |t.children[i].entries| == CAPACITY
      requires median == t.children[i].entries[B - 1]
      modifies node`entries, node`children
      ensures Is(node, SplitChild(t, i, a))
    {
      hide NodeStore.Valid, NodeStore.Front, Denote, InPages, Node.LaidOut, MapHeader;
      node.children := node.children[..i + 1] + [a] + node.children[i + 1..];
      node.InsertEntry(i, median, store);
      assert Roots(SplitChild(t, i, a).children) == node.children;
    }

    /** Replaces the value of entry `i` of a node and saves it. */
    method UpdateValue(node: Node, i: nat, value: Value, ghost t: Tree, ghost f: multiset<Address>)
      returns (old_: Value, ghost t': Tree)
      requires Steady() && Is(node, t) && AllStored(store.nodes, t.children) && Owned(store.nodes, f, t)
      requires i < |t.entries| && Sorted(Flatten(t)) && Savable(t) && EntryFits(store.codec, Entry(t.entries[i].key, value))
      modifies store.Footprint(), node
      ensures Steady() && Stored(store.nodes, t') && Owned(store.nodes, f, t') && Agree(old(store.nodes), store.nodes, f)
      ensures t' == WithEntry(t, i, Entry(t.entries[i].key, value))
      ensures Some(old_) == Find(Flatten(t), t.entries[i].key)
      ensures Flatten(t') == Put(Flatten(t), t.entries[i].key, value)
    {
      hide NodeStore.Valid, NodeStore.Front, Denote, InPages, Node.LaidOut, MapHeader;
      ghost var nodes := store.nodes;
      t' := WithEntry(t, i, Entry(t.entries[i].key, value));
      WithEntrySavable(t, i, Entry(t.entries[i].key, value));
      old_ := node.SwapValue(i, value, store);
      SaveNode(node, t');
      FoundAtTop(t, i, value);
      TopSaved(nodes, store.nodes, f, t');
    }

    lemma WithEntrySavable(t: Tree, i: nat, e: Entry)
      requires Savable(t) && i < |t.entries| && EntryFits(store.codec, e) && Sorted(t.entries[i := e])
      ensures Savable(WithEntry(t, i, e))
    {
      hide EntryFits;
    }

    /** The state after an insertion below a node that stays where it is. */
    ghost predicate Inserted(t: Tree, h: nat, f: multiset<Address>, key: Key, value: Value,
                             nodes: Pages, n: nat, r: Option<Value>, t': Tree)
      reads this, store.Footprint()
    {
      && Steady() && Stored(store.nodes, t') && Owned(store.nodes, f, t') && Agree(nodes, store.nodes, f)
      && Shape(t', h) && t'.addr == t.addr && |t.entries| <= |t'.entries|
      && r == Find(Flatten(t), key) && Flatten(t') == Put(Flatten(t), key, value)
      && length == n + (if r.None? then 1 else 0)
    }

    /** Inserts an entry below a node that is not full. */
    method InsertNonfull(node: Node, key: Key, value: Value, ghost t: Tree, ghost h: nat, ghost f: multiset<Address>)
      returns (r: Option<Value>, ghost t': Tree)
      requires Steady() && Is(node, t) && Shape(t, h) && |t.entries| < CAPACITY && Sorted(Flatten(t))
      requires Owned(store.nodes, f, t) && (0 < h ==> Stored(store.nodes, t))
      requires AllFit(store.codec, t.entries) && CanInsert(t, f, key, value)
      modifies this`length, store.Footprint(), node
      ensures Inserted(t, h, f, key, value, old(store.nodes), old(length), r, t')
      decreases h, 1
    {
      hide NodeStore.Valid, NodeStore.Front, Denote, InPages, Node.LaidOut, MapHeader, EntryFits, AllFit;
      EntriesSorted(t);
      TopShape(t, h);
      var s := node.Search(key, store);
      if s.Found? {
        var old_: Value;
        StoredRooted(t.children);
        old_, t' := UpdateValue(node, s.index, value, t, f);
        r := Some(old_);
      } else if node.kind.Leaf? {
        r := None;
        t' := InsertInLeaf(node, s.index, key, value, t, h, f);
      } else {
        r, t' := InsertBelow(node, s.index, key, value, t, h, f);
      }
    }

    method InsertInLeaf(node: Node, i: nat, key: Key, value: Value, ghost t: Tree, ghost h: nat, ghost f: multiset<Address>)
      returns (ghost t': Tree)
      requires Steady() && Is(node, t) && Shape(t, h) && |t.entries| < CAPACITY && Sorted(t.entries)
      requires Owned(store.nodes, f, t) && Gap(t.entries, i, key) && t.children == []
      requires AllFit(store.codec, t.entries) && CanInsert(t, f, key, value)
      modifies this`length, store.Footprint(), node
      ensures Inserted(t, h, f, key, value, old(store.nodes), old(length), None, t')
    {
      hide NodeStore.Valid, NodeStore.Front, Denote, InPages, Node.LaidOut, MapHeader;
      ghost var nodes := store.nodes;
      t' := t.(entries := t.entries[..i] + [Entry(key, value)] + t.entries[i..]);
      LeafMissing(t, i, key, value);
      LeafFlatten(t');
      LeafTakes(t, i, Entry(key, value));
      node.InsertEntry(i, Entry(key, value), store);
      SaveNode(node, t');
      TopSaved(nodes, store.nodes, f, t');
      length := length + 1;
      RootKnown(f, t');
      SaveHeader();
    }

    lemma LeafTakes(t: Tree, i: nat, e: Entry)
      requires t.children == [] && |t.entries| < CAPACITY && Sorted(t.entries) && Gap(t.entries, i, e.key)
      requires AllFit(store.codec, t.entries) && EntryFits(store.codec, e)
      ensures Savable(t.(entries := t.entries[..i] + [e] + t.entries[i..]))
    {
      hide EntryFits;
    }

    /** Inserts an entry below child `i` of an internal node, splitting the child first if full. */
    method InsertBelow(node: Node, i: nat, key: Key, value: Value, ghost t: Tree, ghost h: nat, ghost f: multiset<Address>)
      returns (r: Option<Value>, ghost t': Tree)
      requires Steady() && Is(node, t) && Shape(t, h) && |t.entries| < CAPACITY && Sorted(Flatten(t))
      requires Owned(store.nodes, f, t) && 0 < h && Stored(store.nodes, t) && Gap(t.entries, i, key)
      requires CanInsert(t, f, key, value)
      modifies this`length, store.Footprint(), node
      ensures Inserted(t, h, f, key, value, old(store.nodes), old(length), r, t')
      decreases h, 0
    {
      hide NodeStore.Valid, NodeStore.Front, Denote, InPages, Node.LaidOut, MapHeader;
      ghost var c := t.children[i];
      InChild(t, i, key, value, h);
      ChildShape(t, h, i);
      var child := LoadChild(node, i, t, h);
      if CAPACITY <= |child.entries| {
        EntriesSorted(c);
        var s := child.Search(key, store);
        if s.Found? {
          r, t' := UpdateInChild(child, s.index, key, value, t, i, h, f);
        } else {
          r, t' := InsertSplitting(node, i, key, value, t, s.index, h, f);
        }
      } else {
        r, t' := InsertInto(child, key, value, t, i, h, f);
      }
    }

    /** The key is in the full child: no split is needed. */
    method UpdateInChild(child: Node, x: nat, key: Key, value: Value, ghost t: Tree, ghost i: nat, ghost h: nat, ghost f: multiset<Address>)
      returns (r: Option<Value>, ghost t': Tree)
      requires Steady() && Shape(t, h) && 0 < h && Sorted(Flatten(t)) && Gap(t.entries, i, key)
      requires Stored(store.nodes, t) && Owned(store.nodes, f, t) && Is(child, t.children[i])
      requires x < |t.children[i].entries| && t.children[i].entries[x].key == key && EntryFits(store.codec, Entry(key, value))
      modifies store.Footprint(), child
      ensures Inserted(t, h, f, key, value, old(store.nodes), old(length), r, t')
    {
      hide NodeStore.Valid, NodeStore.Front, Denote, InPages, Node.LaidOut, MapHeader, SavableAmong, Sorted, Flatten, Shape, Put, Find, EntryFits;
      ghost var nodes := store.nodes;
      TopShape(t, h);
      ghost var c := t.children[i];
      InChild(t, i, key, value, h);
      ChildShape(t, h, i);
      Descend(nodes, f, t, i);
      ChildStored(nodes, t, i);
      StoredSavable(c, h - 1);
      var old_: Value;
      ghost var c': Tree;
      old_, c' := UpdateValue(child, x, value, c, Around(f, t, i));
      r := Some(old_);
      t' := Edit(t, i, i, [], [c']);
      WithEntryShape(c, x, Entry(key, value), h - 1);
      WithChild(t, i, c', h);
      Ascend(nodes, store.nodes, f, t, i, c');
    }

    /** The key is missing from the full child `i`: the child is split. */
    method InsertSplitting(node: Node, i: nat, key: Key, value: Value, ghost t: Tree, ghost x: nat, ghost h: nat, ghost f: multiset<Address>)
      returns (r: Option<Value>, ghost t': Tree)
      requires Steady() && Is(node, t) && Shape(t, h) && 0 < h && |t.entries| < CAPACITY && Sorted(Flatten(t))
      requires Owned(store.nodes, f, t) && Stored(store.nodes, t) && Gap(t.entries, i, key)
      requires |t.children[i].entries| == CAPACITY && Gap(t.children[i].entries, x, key) && Sorted(t.children[i].entries)
      requires CanInsert(t, f, key, value)
      modifies this`length, store.Footprint(), node
      ensures Inserted(t, h, f, key, value, old(store.nodes), old(length), r, t')
      decreases h - 1, 4
    {
      hide NodeStore.Valid, NodeStore.Front, Denote, InPages, Node.LaidOut, MapHeader;
      TopFits(t);
      ghost var a := SplitChildAt(node, i, t, h, f);
      SplitChildMeaning(t, i, a, h);
      r, t' := InsertAfterSplit(node, key, value, t, i, a, x, h, f);
    }

    /** Searches the node again after the split, and inserts into the half it names. */
    method InsertAfterSplit(node: Node, key: Key, value: Value, ghost t: Tree, ghost i: nat, ghost a: Address, ghost x: nat,
                            ghost h: nat, ghost f: multiset<Address>)
      returns (r: Option<Value>, ghost t': Tree)
      requires Shape(t, h) && 0 < h && |t.entries| < CAPACITY && Gap(t.entries, i, key)
      requires |t.children[i].entries| == CAPACITY && Gap(t.children[i].entries, x, key) && Sorted(t.children[i].entries)
      requires Steady() && Is(node, SplitChild(t, i, a)) && Shape(SplitChild(t, i, a), h) && Sorted(Flatten(SplitChild(t, i, a)))
      requires Stored(store.nodes, SplitChild(t, i, a)) && Owned(store.nodes, f, SplitChild(t, i, a))
      requires CanInsert(t, f, key, value)
      modifies this`length, store.Footprint(), node
      ensures Inserted(SplitChild(t, i, a), h, f, key, value, old(store.nodes), old(length), r, t')
      decreases h - 1, 3
    {
      hide NodeStore.Valid, NodeStore.Front, Denote, InPages, Node.LaidOut, MapHeader;
      ghost var t1 := SplitChild(t, i, a);
      EntriesSorted(t1);
      var s := node.Search(key, store);
      SplitMissesKey(t, t1, i, a, h, key, s, x);
      var child := LoadChild(node, s.index, t1, h);
      r, t' := InsertInto(child, key, value, t1, s.index, h, f);
    }

    /** Inserts an entry below the child `i` of a stored tree, already loaded and not full. */
    method InsertInto(child: Node, key: Key, value: Value, ghost t: Tree, ghost i: nat, ghost h: nat, ghost f: multiset<Address>)
      returns (r: Option<Value>, ghost t': Tree)
      requires Steady() && Shape(t, h) && 0 < h && Sorted(Flatten(t)) && Gap(t.entries, i, key)
      requires Stored(store.nodes, t) && Owned(store.nodes, f, t)
      requires Is(child, t.children[i]) && |t.children[i].entries| < CAPACITY && CanInsert(t, f, key, value)
      modifies this`length, store.Footprint(), child
      ensures Inserted(t, h, f, key, value, old(store.nodes), old(length), r, t')
      decreases h - 1, 2
    {
      hide NodeStore.Valid, NodeStore.Front, Denote, InPages, Node.LaidOut, MapHeader;
      ghost var nodes := store.nodes;
      ghost var c := t.children[i];
      InChild(t, i, key, value, h);
      Descend(nodes, f, t, i);
      ChildStored(nodes, t, i);
      TopFits(c);
      ghost var c': Tree;
      r, c' := InsertNonfull(child, key, value, c, h - 1, Around(f, t, i));
      t' := Edit(t, i, i, [], [c']);
      WithChild(t, i, c', h);
      Ascend(nodes, store.nodes, f, t, i, c');
    }

    /** After the split the key is in neither the node nor the median, and its gap is one of the
        two halves. */
    lemma SplitMissesKey(t: Tree, t1: Tree, i: nat, a: Address, h: nat, key: Key, s: SearchResult, x: nat)
      requires Shape(t, h) && 0 < h && i <= |t.entries| < CAPACITY && |t.children[i].entries| == CAPACITY
      requires t1 == SplitChild(t, i, a) && Sorted(t1.entries) && Gap(t.entries, i, key)
      requires Gap(t.children[i].entries, x, key) && Sorted(t.children[i].entries)
      requires s.Found? ==> s.index < |t1.entries| && t1.entries[s.index].key == key
      requires s.Missing? ==> Gap(t1.entries, s.index, key)
      ensures s.Missing? && i <= s.index <= i + 1
      ensures t1.children[s.index] == LowHalf(t.children[i]) || t1.children[s.index] == HighHalf(t.children[i], a)
    {
      var es, m := t.entries, t.children[i].entries[B - 1];
      assert t1.entries == es[..i] + [m] + es[i..];
      assert m.key != key;
      assert 0 < i ==> t1.entries[i - 1] == es[i - 1];
      assert i < |es| ==> t1.entries[i + 1] == es[i];
    }

    // ---- Removal

    /** The entry with the greatest key, and the one with the least, below a node. */
    method GetMax(node: Node, ghost t: Tree, ghost h: nat) returns (e: Entry)
      requires store.Valid() && Is(node, t) && Stored(store.nodes, t) && Shape(t, h) && 0 < |t.entries|
      modifies node`entries
      ensures 0 < |Flatten(t)| && e == Flatten(t)[|Flatten(t)| - 1] && Is(node, t) && EntryFits(store.codec, e)
      decreases h
    {
      hide NodeStore.Valid, NodeStore.Front, Denote, InPages, Node.LaidOut, MapHeader;
      NonEmpty(t, h);
      if node.kind.Leaf? {
        LeafFlatten(t);
        TopFits(t);
        e := node.LoadEntry(|node.entries| - 1, store);
      } else {
        ghost var n := |t.entries|;
        ChildShape(t, h, n);
        AroundChild(t, n);
        var child := LoadChild(node, |node.children| - 1, t, h);
        e := GetMax(child, t.children[n], h - 1);
      }
    }

    method GetMin(node: Node, ghost t: Tree, ghost h: nat) returns (e: Entry)
      requires store.Valid() && Is(node, t) && Stored(store.nodes, t) && Shape(t, h) && 0 < |t.entries|
      modifies node`entries
      ensures 0 < |Flatten(t)| && e == Flatten(t)[0] && Is(node, t) && EntryFits(store.codec, e)
      decreases h
    {
      hide NodeStore.Valid, NodeStore.Front, Denote, InPages, Node.LaidOut, MapHeader;
      NonEmpty(t, h);
      if node.kind.Leaf? {
        LeafFlatten(t);
        TopFits(t);
        e := node.LoadEntry(0, store);
      } else {
        ChildShape(t, h, 0);
        AroundChild(t, 0);
        var child := LoadChild(node, 0, t, h);
        e := GetMin(child, t.children[0], h - 1);
      }
    }

    /** What removal below a node relies on: the node is the root, or can lose an entry. */
    ghost predicate Removable(t: Tree, h: nat, f: multiset<Address>)
      reads this, store.Footprint()
    {
      && Steady() && Stored(store.nodes, t) && Owned(store.nodes, f, t)
      && Shape(t, h) && Sorted(Flatten(t)) && |Flatten(t)| <= length
      && if t.addr == rootAddr then f == multiset{} && 1 <= |t.entries|
         else rootAddr in f && B <= |t.entries|
    }

    /** The state after removal below a node: a root may have moved, shrunk or gone; any other node
        stays where it is and loses at most one entry. */
    ghost predicate Removed(t: Tree, h: nat, f: multiset<Address>, key: Key,
                            nodes: Pages, root: Address, n: nat, r: Option<Value>, t': Tree, h': nat)
      reads this, store.Footprint()
    {
      && Steady() && Agree(nodes, store.nodes, f)
      && r == Find(Flatten(t), key) && Flatten(t') == Drop(Flatten(t), key)
      && length == n - (if r.None? then 0 else 1)
      && if t.addr == root && Flatten(t') == [] then rootAddr == NULL && store.nodes == map[]
         else
           && Stored(store.nodes, t') && Owned(store.nodes, f, t') && Shape(t', h') && rootAddr == (if t.addr == root then t'.addr else root)
           && if t.addr == root then 1 <= |t'.entries|
              else t'.addr == t.addr && h' == h && |t.entries| - 1 <= |t'.entries|
    }

    /** Removes a key below `node`. */
    method RemoveHelper(node: Node, key: Key, ghost t: Tree, ghost h: nat, ghost f: multiset<Address>)
      returns (r: Option<Value>, ghost t': Tree, ghost h': nat)
      requires Removable(t, h, f) && Is(node, t)
      modifies this`length, this`rootAddr, store.Footprint(), node
      ensures Removed(t, h, f, key, old(store.nodes), old(rootAddr), old(length), r, t', h')
      decreases h, 3
    {
      hide NodeStore.Valid, NodeStore.Front, Denote, InPages, Node.LaidOut, MapHeader;
      EntriesSorted(t);
      var s := node.Search(key, store);
      if node.kind.Leaf? {
        h' := h;
        if s.Found? {
          r, t' := RemoveFromLeaf(node, s.index, key, t, h, f);
        } else {
          LeafMissing(t, s.index, key, []);
          r, t' := None, t;
        }
      } else if s.Found? {
        r, t', h' := RemoveHere(node, s.index, key, t, h, f);
      } else {
        r, t', h' := RemoveBelow(node, s.index, key, t, h, f);
      }
    }

    /** Case 1: the key is in a leaf. */
    method RemoveFromLeaf(node: Node, i: nat, key: Key, ghost t: Tree, ghost h: nat, ghost f: multiset<Address>)
      returns (r: Option<Value>, ghost t': Tree)
      requires Removable(t, h, f) && Is(node, t) && t.children == [] && i < |t.entries| && t.entries[i].key == key
      modifies this`length, this`rootAddr, store.Footprint(), node
      ensures Removed(t, h, f, key, old(store.nodes), old(rootAddr), old(length), r, t', h)
    {
      hide NodeStore.Valid, NodeStore.Front, Denote, InPages, Node.LaidOut, MapHeader, SavableAmong;
      EntriesSorted(t);
      LeafFound(t, i);
      LeafFlatten(t);
      t' := t.(entries := t.entries[..i] + t.entries[i + 1..]);
      LeafFlatten(t');
      LeafSavable(t, i, h);
      var e := node.RemoveEntry(i, store);
      SteadyLength();
      length := length - 1;
      if |node.entries| == 0 {
        DropRoot(node, t);
      } else {
        SaveLeaf(node, t, t', f);
        RootKnown(f, t');
      }
      SaveHeader();
      r := Some(e.value);
    }

    lemma LeafSavable(t: Tree, i: nat, h: nat)
      requires store.Valid() && TopStored(store.nodes, t) && Shape(t, h) && t.children == [] && i < |t.entries| && Sorted(t.entries)
      ensures 1 < |t.entries| ==> Savable(t.(entries := t.entries[..i] + t.entries[i + 1..]))
    {
      hide NodeStore.Valid, EntryFits, AllFit;
      TopShape(t, h);
      TopFits(t);
      FitParts(store.codec, t.entries, i);
      FitParts(store.codec, t.entries, i + 1);
      FitTogether(store.codec, t.entries[..i], t.entries[i + 1..]);
    }

    method SaveLeaf(node: Node, ghost t: Tree, ghost t': Tree, ghost f: multiset<Address>)
      requires store.Valid() && Is(node, t') && Owned(store.nodes, f, t) && t.children == [] && t'.children == [] && t'.addr == t.addr
      requires Savable(t')
      modifies store.Footprint(), node
      ensures store.Valid() && Stored(store.nodes, t') && Owned(store.nodes, f, t') && Agree(old(store.nodes), store.nodes, f)
      ensures old(store.Span()) <= store.Span()
    {
      hide NodeStore.Valid, NodeStore.Front, Denote, InPages, Node.LaidOut, MapHeader;
      ghost var nodes := store.nodes;
      store.SaveNode(node);
      TopSaved(nodes, store.nodes, f, t');
    }

    /** The last entry of the map is gone: the root leaf is freed. */
    method DropRoot(node: Node, ghost t: Tree)
      requires store.Valid() && node.Readable(store) && node.address == t.addr == rootAddr && t.children == []
      requires Owned(store.nodes, multiset{}, t)
      modifies this`rootAddr, store.Footprint()
      ensures store.Valid() && store.Front() == old(store.Front())
      ensures rootAddr == NULL && store.nodes == map[] && old(store.Span()) <= store.Span()
    {
      hide NodeStore.Valid, NodeStore.Front, Denote, InPages, Node.LaidOut, MapHeader;
      OnlyNode(store.nodes, t);
      store.DeallocateNode(node);
      rootAddr := NULL;
    }

    lemma OnlyNode(nodes: Pages, t: Tree)
      requires Owned(nodes, multiset{}, t) && t.children == []
      ensures nodes.Keys == {t.addr}
    {
      assert Addrs(t) == multiset{t.addr};
      forall x
        ensures x in nodes <==> x == t.addr
      {
        assert multiset(nodes.Keys)[x] == Addrs(t)[x];
      }
    }

    /** The state after removal below a child of a node that keeps its place and its entries. */
    ghost predicate RemovedInChild(t: Tree, h: nat, f: multiset<Address>, key: Key,
                                   nodes: Pages, root: Address, n: nat, r: Option<Value>, t': Tree)
      reads this, store.Footprint()
    {
      && Steady() && Agree(nodes, store.nodes, f) && rootAddr == root
      && r == Find(Flatten(t), key) && Flatten(t') == Drop(Flatten(t), key)
      && length == n - (if r.None? then 0 else 1)
      && Stored(store.nodes, t') && Owned(store.nodes, f, t') && Shape(t', h)
      && t'.addr == t.addr && |t'.entries| == |t.entries|
    }

    /** What descent from a stored node into its child `i` relies on. */
    ghost predicate CanDescend(t: Tree, i: nat, h: nat, f: multiset<Address>, key: Key)
      reads this, store.Footprint()
    {
      && Steady() && Stored(store.nodes, t) && Owned(store.nodes, f, t)
      && Shape(t, h) && 0 < h && Sorted(Flatten(t)) && |Flatten(t)| <= length
      && Gap(t.entries, i, key) && rootAddr in f + multiset{t.addr}
    }

    /** Removes a key below child `i` of a stored node, the child being able to lose an entry. */
    method RemoveInChild(child: Node, key: Key, ghost t: Tree, ghost i: nat, ghost h: nat, ghost f: multiset<Address>)
      returns (r: Option<Value>, ghost t': Tree)
      requires CanDescend(t, i, h, f, key) && Is(child, t.children[i]) && B <= |t.children[i].entries|
      modifies this`length, this`rootAddr, store.Footprint(), child
      ensures RemovedInChild(t, h, f, key, old(store.nodes), old(rootAddr), old(length), r, t')
      decreases h - 1, 4
    {
      hide NodeStore.Valid, NodeStore.Front, Denote, InPages, Node.LaidOut, MapHeader;
      PrepareDescent(t, i, h, f, key);
      ghost var nodes := store.nodes;
      ghost var c': Tree;
      ghost var h': nat;
      r, c', h' := RemoveHelper(child, key, t.children[i], h - 1, Around(f, t, i));
      t' := FinishDescent(t, i, h, f, key, nodes, old(rootAddr), old(length), r, c', h');
    }

    lemma PrepareDescent(t: Tree, i: nat, h: nat, f: multiset<Address>, key: Key)
      requires CanDescend(t, i, h, f, key) && B <= |t.children[i].entries|
      ensures i < |t.children| && Removable(t.children[i], h - 1, Around(f, t, i))
    {
      InChild(t, i, key, [], h);
      ChildShape(t, h, i);
      ChildSorted(t, i);
      Descend(store.nodes, f, t, i);
      ChildStored(store.nodes, t, i);
      RootOutside(rootAddr, Around(f, t, i), t.children[i]);
    }

    lemma FinishDescent(t: Tree, i: nat, h: nat, f: multiset<Address>, key: Key,
                        nodes: Pages, root: Address, n: nat, r: Option<Value>, c': Tree, h': nat) returns (t': Tree)
      requires Stored(nodes, t) && Shape(t, h) && 0 < h && Sorted(Flatten(t)) && Gap(t.entries, i, key)
      requires t.children[i].addr != root && B <= |t.children[i].entries|
      requires Removed(t.children[i], h - 1, Around(f, t, i), key, nodes, root, n, r, c', h')
      ensures RemovedInChild(t, h, f, key, nodes, root, n, r, t')
    {
      hide NodeStore.Valid, NodeStore.Front, MapHeader, Shape, Flatten, Sorted, Find, Drop, Addrs, Stored, Owned;
      TopShape(t, h);
      t' := Edit(t, i, i, [], [c']);
      InChild(t, i, key, [], h);
      WithChild(t, i, c', h);
      Ascend(nodes, store.nodes, f, t, i, c');
    }

    lemma RootOutside(root: Address, f: multiset<Address>, c: Tree)
      requires Owned(store.nodes, f, c) && root in f
      ensures c.addr != root
    {
      Apart(store.nodes.Keys, f, Addrs(c));
      assert c.addr in Addrs(c);
    }

    // ---- Case 2: the key is in an internal node

    /** Cases 2.a, 2.b and 2.c, by which of the two neighbouring children can lose an entry. */
    method RemoveHere(node: Node, i: nat, key: Key, ghost t: Tree, ghost h: nat, ghost f: multiset<Address>)
      returns (r: Option<Value>, ghost t': Tree, ghost h': nat)
      requires Removable(t, h, f) && Is(node, t) && 0 < h && i < |t.entries| && t.entries[i].key == key
      modifies this`length, this`rootAddr, store.Footprint(), node
      ensures Removed(t, h, f, key, old(store.nodes), old(rootAddr), old(length), r, t', h')
      decreases h, 1
    {
      hide NodeStore.Valid, NodeStore.Front, Denote, InPages, Node.LaidOut, MapHeader;
      ChildShape(t, h, i);
      ChildShape(t, h, i + 1);
      var left := LoadChild(node, i, t, h);
      if B <= |left.entries| {
        r, t' := ReplaceByPredecessor(node, left, i, key, t, h, f);
        h' := h;
      } else {
        var right := LoadChild(node, i + 1, t, h);
        if B <= |right.entries| {
          r, t' := ReplaceBySuccessor(node, right, i, key, t, h, f);
          h' := h;
        } else {
          r, t', h' := MergeAndRemove(node, left, right, i, key, t, h, f);
        }
      }
    }

    /** A child of the node lost an entry, which replaces entry `i` of the node. */
    method PromoteEntry(node: Node, i: nat, e: Entry, ghost t: Tree, ghost f: multiset<Address>) returns (old_: Entry)
      requires Steady() && Is(node, t) && Stored(store.nodes, t) && Owned(store.nodes, f, t) && i < |t.entries|
      requires EntryFits(store.codec, e) && |t.entries| <= CAPACITY && Shaped(KindOf(t), |t.entries|, |t.children|)
      requires Sorted(t.entries) && Sorted(t.entries[i := e])
      modifies store.Footprint(), node
      ensures Steady() && Stored(store.nodes, WithEntry(t, i, e)) && Owned(store.nodes, f, WithEntry(t, i, e))
      ensures Agree(old(store.nodes), store.nodes, f) && old_ == t.entries[i]
    {
      hide NodeStore.Valid, NodeStore.Front, Denote, InPages, Node.LaidOut, MapHeader;
      ghost var nodes := store.nodes;
      TopFits(t);
      StoredRooted(t.children);
      WithEntrySavable(t, i, e);
      old_ := node.SwapEntry(i, e, store);
      SaveNode(node, WithEntry(t, i, e));
      TopSaved(nodes, store.nodes, f, WithEntry(t, i, e));
    }

    /** Case 2.a: the predecessor of the key moves up from the left child. */
    method ReplaceByPredecessor(node: Node, left: Node, i: nat, key: Key, ghost t: Tree, ghost h: nat, ghost f: multiset<Address>)
      returns (r: Option<Value>, ghost t': Tree)
      requires Removable(t, h, f) && Is(node, t) && 0 < h && i < |t.entries| && t.entries[i].key == key
      requires Is(left, t.children[i]) && B <= |t.children[i].entries| && left != node
      modifies this`length, this`rootAddr, store.Footprint(), node, left
      ensures Removed(t, h, f, key, old(store.nodes), old(rootAddr), old(length), r, t', h)
      decreases h, 0
    {
      hide NodeStore.Valid, NodeStore.Front, Denote, InPages, Node.LaidOut, MapHeader, Flatten, Addrs, Owned, Drop, Find, Stored, Shape;
      TopShape(t, h);
      ghost var c := t.children[i];
      ChildShape(t, h, i);
      ChildStored(store.nodes, t, i);
      var predecessor := GetMax(left, c, h - 1);
      ChildSorted(t, i);
      DropLast(Flatten(c));
      ghost var c' := RemoveNeighbour(node, left, predecessor.key, t, i, h, f);
      t' := WithEntry(Edit(t, i, i, [], [c']), i, predecessor);
      Replaced(t, i, i, c', predecessor, h);
      ReplacedSorted(t, i, i, c', predecessor, h);
      var old_ := PromoteEntry(node, i, predecessor, Edit(t, i, i, [], [c']), f);
      r := Some(old_.value);
    }

    /** Case 2.b: the successor of the key moves up from the right child. */
    method ReplaceBySuccessor(node: Node, right: Node, i: nat, key: Key, ghost t: Tree, ghost h: nat, ghost f: multiset<Address>)
      returns (r: Option<Value>, ghost t': Tree)
      requires Removable(t, h, f) && Is(node, t) && 0 < h && i < |t.entries| && t.entries[i].key == key
      requires Is(right, t.children[i + 1]) && B <= |t.children[i + 1].entries| && right != node
      modifies this`length, this`rootAddr, store.Footprint(), node, right
      ensures Removed(t, h, f, key, old(store.nodes), old(rootAddr), old(length), r, t', h)
      decreases h, 0
    {
      hide NodeStore.Valid, NodeStore.Front, Denote, InPages, Node.LaidOut, MapHeader, Flatten, Addrs, Owned, Drop, Find, Stored, Shape;
      TopShape(t, h);
      ghost var c := t.children[i + 1];
      ChildShape(t, h, i + 1);
      ChildStored(store.nodes, t, i + 1);
      var successor := GetMin(right, c, h - 1);
      ChildSorted(t, i + 1);
      DropFirst(Flatten(c));
      ghost var c' := RemoveNeighbour(node, right, successor.key, t, i + 1, h, f);
      t' := WithEntry(Edit(t, i + 1, i + 1, [], [c']), i, successor);
      Replaced(t, i, i + 1, c', successor, h);
      ReplacedSorted(t, i, i + 1, c', successor, h);
      var old_ := PromoteEntry(node, i, successor, Edit(t, i + 1, i + 1, [], [c']), f);
      r := Some(old_.value);
    }

    /** The entry that replaces another takes its place in the order. */
    lemma ReplacedSorted(t: Tree, i: nat, x: nat, c: Tree, e: Entry, h: nat)
      requires Shape(t, h) && 0 < h && i < |t.entries| && i <= x <= i + 1 && Sorted(Flatten(t))
      requires var t1 := Edit(t, x, x, [], [c]); Flatten(WithEntry(t1, i, e)) == Drop(Flatten(t), t.entries[i].key)
      ensures var t1 := Edit(t, x, x, [], [c]);
              && Sorted(t1.entries) && Sorted(t1.entries[i := e]) && |t1.entries| <= CAPACITY
              && Shaped(KindOf(t1), |t1.entries|, |t1.children|)
    {
      hide Flatten, Drop;
      TopShape(t, h);
      EntriesSorted(t);
      DropSorted(Flatten(t), t.entries[i].key);
      var t1 := Edit(t, x, x, [], [c]);
      assert t1.entries == t.entries;
      EntriesSorted(WithEntry(t1, i, e));
    }

    /** Removes a key known to be below child `x` of the node, which is still in memory. */
    method RemoveNeighbour(node: Node, child: Node, key: Key, ghost t: Tree, ghost x: nat, ghost h: nat, ghost f: multiset<Address>)
      returns (ghost c': Tree)
      requires Removable(t, h, f) && Is(node, t) && 0 < h && x <= |t.entries|
      requires Is(child, t.children[x]) && B <= |t.children[x].entries| && child != node
      requires Find(Flatten(t.children[x]), key).Some?
      modifies this`length, this`rootAddr, store.Footprint(), child
      ensures Steady() && Agree(old(store.nodes), store.nodes, f) && rootAddr == old(rootAddr) && length == old(length) - 1
      ensures Branch(c', h - 1) && Flatten(c') == Drop(Flatten(t.children[x]), key)
      ensures x <= |t.entries| < |t.children| && Is(node, Edit(t, x, x, [], [c']))
      ensures Stored(store.nodes, Edit(t, x, x, [], [c'])) && Owned(store.nodes, f, Edit(t, x, x, [], [c']))
      decreases h - 1, 4
    {
      hide NodeStore.Valid, NodeStore.Front, Denote, InPages, Node.LaidOut, MapHeader;
      ghost var nodes := store.nodes;
      ghost var c := t.children[x];
      ghost var h': nat;
      ChildShape(t, h, x);
      ChildSorted(t, x);
      AroundChild(t, x);
      Descend(nodes, f, t, x);
      ChildStored(nodes, t, x);
      RootOutside(rootAddr, Around(f, t, x), c);
      var r: Option<Value>;
      r, c', h' := RemoveHelper(child, key, c, h - 1, Around(f, t, x));
      assert r.Some?;
      Ascend(nodes, store.nodes, f, t, x, c');
      assert t.addr in Around(f, t, x);
      assert Roots(Edit(t, x, x, [], [c']).children) == Roots(t.children);
    }

    // ---- Merging two children

    /** The nodes `into` and `source`, neighbours in either order, become one in the page of `into`. */
    method JoinNodes(into: Node, source: Node, m: Entry, ghost l: Tree, ghost r: Tree, ghost h: nat)
      requires Steady() && into != source && l.addr != r.addr
      requires (Is(into, l) && Is(source, r)) || (Is(into, r) && Is(source, l))
      requires Shape(l, h) && Shape(r, h) && |l.entries| == |r.entries| == B - 1
      requires AllBelow(l.entries, m.key) && AllAbove(m.key, r.entries)
      requires AllFit(store.codec, l.entries) && EntryFits(store.codec, m) && AllFit(store.codec, r.entries)
      requires Sorted(l.entries) && Sorted(r.entries) && Rooted(store.nodes, l.children) && Rooted(store.nodes, r.children)
      modifies store.Footprint(), into, source
      ensures Steady() && Is(into, Joined(l, m, r, into.address)) && TopStored(store.nodes, Joined(l, m, r, into.address))
      ensures store.nodes.Keys == old(store.nodes.Keys) - {source.address}
      ensures SameExcept(old(store.nodes), store.nodes, {into.address, source.address})
    {
      hide NodeStore.Valid, NodeStore.Front, Denote, InPages, Node.LaidOut, MapHeader, EntryFits, AllFit;
      TopShape(l, h);
      TopShape(r, h);
      into.Merge(source, m, store);
      assert into.View(store) == l.entries + [m] + r.entries;
      assert into.children == Roots(l.children) + Roots(r.children) == Roots(l.children + r.children);
    }

    /** Child `at` leaves the node, after entry `i` has. */
    method DropChild(node: Node, i: nat, at: nat, ghost t: Tree, ghost a: Address)
      requires i < |t.entries| && |t.children| == |t.entries| + 1 && i <= at <= i + 1
      requires node.Readable(store) && node.address == t.addr && node.kind.Internal?
      requires node.View(store) == t.entries[..i] + t.entries[i + 1..] && node.children == Roots(t.children)
      requires a == t.children[2 * i + 1 - at].addr
      modifies node`children
      ensures Is(node, MergeChildren(t, i, a))
    {
      hide NodeStore.Valid, NodeStore.Front, Denote, InPages, Node.LaidOut, MapHeader;
      node.children := node.children[..at] + node.children[at + 1..];
      assert Roots(MergeChildren(t, i, a).children) == node.children;
    }

    /** Children i and i + 1 become one, in the page of `into`; `at` is the place of `source`. The
        node is still to be saved. */
    method MergeAt(node: Node, into: Node, source: Node, i: nat, at: nat, ghost t: Tree, ghost h: nat, ghost f: multiset<Address>)
      requires Steady() && Is(node, t) && Stored(store.nodes, t) && Owned(store.nodes, f, t)
      requires Shape(t, h) && 0 < h && Sorted(Flatten(t)) && i < |t.entries| && i <= at <= i + 1
      requires Is(into, t.children[2 * i + 1 - at]) && Is(source, t.children[at])
      requires node != into && node != source && into != source
      requires |t.children[i].entries| == |t.children[i + 1].entries| == B - 1
      modifies store.Footprint(), node, into, source
      ensures Steady() && Is(node, MergeChildren(t, i, into.address))
      ensures AllStored(store.nodes, MergeChildren(t, i, into.address).children)
      ensures Owned(store.nodes, f, MergeChildren(t, i, into.address)) && Agree(old(store.nodes), store.nodes, f)
      ensures Is(into, MergeChildren(t, i, into.address).children[i])
      ensures AllFit(store.codec, MergeChildren(t, i, into.address).entries)
    {
      hide NodeStore.Valid, NodeStore.Front, Denote, InPages, Node.LaidOut, MapHeader, EntryFits, AllFit, Sorted, Flatten, AllBelow, AllAbove, Addrs, Rooted;
      ghost var nodes := store.nodes;
      ghost var l, m, r := t.children[i], t.entries[i], t.children[i + 1];
      DistinctTops(nodes, f, t, i);
      ChildShape(t, h, i);
      ChildShape(t, h, i + 1);
      MergeFits(t, i, into.address);
      MergeOrdered(t, i);
      ChildRooted(t, i);
      ChildRooted(t, i + 1);
      var median := node.RemoveEntry(i, store);
      JoinNodes(into, source, median, l, r, h - 1);
      DropChild(node, i, at, t, into.address);
      MergeStored(nodes, store.nodes, f, t, i, into.address, source.address, h);
    }

    lemma MergeOrdered(t: Tree, i: nat)
      requires Sorted(Flatten(t)) && i < |t.entries| && |t.children| == |t.entries| + 1
      ensures AllBelow(t.children[i].entries, t.entries[i].key) && AllAbove(t.entries[i].key, t.children[i + 1].entries)
      ensures Sorted(t.children[i].entries) && Sorted(t.children[i + 1].entries)
    {
      hide Sorted, Flatten, AllBelow, AllAbove;
      Neighbours(t, i);
      ChildSorted(t, i);
      EntriesSorted(t.children[i]);
      ChildSorted(t, i + 1);
      EntriesSorted(t.children[i + 1]);
    }

    /** What is merged was stored, and fits. */
    lemma MergeFits(t: Tree, i: nat, a: Address)
      requires store.Valid() && Stored(store.nodes, t) && i < |t.entries| && |t.children| == |t.entries| + 1
      ensures AllFit(store.codec, t.children[i].entries) && EntryFits(store.codec, t.entries[i]) && AllFit(store.codec, t.children[i + 1].entries)
      ensures AllFit(store.codec, MergeChildren(t, i, a).entries)
    {
      hide NodeStore.Valid, EntryFits, AllFit;
      TopFits(t);
      ChildStored(store.nodes, t, i);
      TopFits(t.children[i]);
      ChildStored(store.nodes, t, i + 1);
      TopFits(t.children[i + 1]);
      FitParts(store.codec, t.entries, i);
      FitParts(store.codec, t.entries, i + 1);
      FitTogether(store.codec, t.entries[..i], t.entries[i + 1..]);
      assert MergeChildren(t, i, a).entries == t.entries[..i] + t.entries[i + 1..];
    }

    /** A root with a single child and no entry gives way to the child. */
    method CollapseRoot(node: Node, child: Node, ghost t: Tree)
      requires Steady() && Is(node, t) && t.addr == rootAddr && t.entries == [] && |t.children| == 1
      requires AllStored(store.nodes, t.children) && Owned(store.nodes, multiset{}, t) && Is(child, t.children[0])
      requires node != child
      modifies this`rootAddr, store.Footprint()
      ensures Steady() && rootAddr == t.children[0].addr && Is(child, t.children[0])
      ensures Stored(store.nodes, t.children[0]) && Owned(store.nodes, multiset{}, t.children[0])
    {
      hide NodeStore.Valid, NodeStore.Front, Denote, InPages, Node.LaidOut, MapHeader;
      ghost var nodes := store.nodes;
      ghost var c := t.children[0];
      AddrsOne(c);
      assert t.children == [c];
      assert multiset(nodes.Keys) == multiset{t.addr} + Addrs(c);
      Apart(nodes.Keys, multiset{t.addr}, Addrs(c));
      assert c.addr in Addrs(c);
      SteadyLength();
      rootAddr := child.address;
      store.DeallocateNode(node);
      SaveHeader();
      StoredFrame(nodes, store.nodes, c);
      assert multiset(nodes.Keys - {t.addr}) == multiset(nodes.Keys) - multiset{t.addr};
    }

    /** After a merge: the node is saved, or gives way to the merged child if it has no entry left. */
    method SettleMerge(node: Node, child: Node, ghost t: Tree, ghost i: nat, ghost h: nat, ghost f: multiset<Address>)
      requires Steady() && Is(node, t) && AllStored(store.nodes, t.children) && Owned(store.nodes, f, t)
      requires Shape(t, h) && 0 < h && i <= |t.entries| && Is(child, t.children[i]) && node != child
      requires t.entries == [] ==> t.addr == rootAddr && f == multiset{}
      requires AllFit(store.codec, t.entries) && Sorted(t.entries)
      modifies this`rootAddr, store.Footprint(), node
      ensures Steady() && Agree(old(store.nodes), store.nodes, f) && Is(child, t.children[i])
      ensures t.entries == [] ==> rootAddr == t.children[i].addr && Stored(store.nodes, t.children[i]) && Owned(store.nodes, f, t.children[i])
      ensures t.entries != [] ==> rootAddr == old(rootAddr) && Stored(store.nodes, t) && Owned(store.nodes, f, t)
    {
      hide NodeStore.Valid, NodeStore.Front, Denote, InPages, Node.LaidOut, MapHeader;
      if |node.entries| == 0 {
        CollapseRoot(node, child, t);
      } else {
        ghost var nodes := store.nodes;
        DistinctTops(nodes, f, t, i);
        TopShape(t, h);
        StoredRooted(t.children);
        SaveNode(node, t);
        TopSaved(nodes, store.nodes, f, t);
      }
    }

    /** Removes the key below the merged child. */
    method RemoveInMerged(child: Node, key: Key, ghost t: Tree, ghost t1: Tree, ghost i: nat, ghost h: nat, ghost f: multiset<Address>)
      returns (r: Option<Value>, ghost t': Tree, ghost h': nat)
      requires Shape(t1, h) && 0 < h && Sorted(Flatten(t1)) && |Flatten(t1)| <= length && Gap(t1.entries, i, key)
      requires Flatten(t) == Flatten(t1) && t.addr == t1.addr && |t.entries| == |t1.entries| + 1
      requires Steady() && Is(child, t1.children[i]) && B <= |t1.children[i].entries|
      requires if t1.entries == []
               then rootAddr == t1.children[i].addr && f == multiset{} && Stored(store.nodes, t1.children[i]) && Owned(store.nodes, f, t1.children[i])
               else Stored(store.nodes, t1) && Owned(store.nodes, f, t1) && rootAddr in f + multiset{t1.addr}
      modifies this`length, this`rootAddr, store.Footprint(), child
      ensures t1.entries != [] ==> Removed(t, h, f, key, old(store.nodes), old(rootAddr), old(length), r, t', h')
      ensures t1.entries == [] ==> Removed(t, h, f, key, old(store.nodes), t.addr, old(length), r, t', h')
      decreases h - 1, 4
    {
      hide NodeStore.Valid, NodeStore.Front, Denote, InPages, Node.LaidOut, MapHeader;
      ghost var c := t1.children[i];
      ghost var nodes := store.nodes;
      ghost var f1 := f;
      ghost var c': Tree;
      ghost var h1: nat;
      InChild(t1, i, key, [], h);
      if t1.entries == [] {
        ChildShape(t1, h, i);
        WithChild(t1, i, c, h);
        AroundChild(t1, i);
      } else {
        f1 := Around(f, t1, i);
        PrepareDescent(t1, i, h, f, key);
      }
      r, c', h1 := RemoveHelper(child, key, c, h - 1, f1);
      if t1.entries == [] {
        t', h' := c', h1;
        LoneChild(t1);
      } else {
        t' := FinishDescent(t1, i, h, f, key, nodes, old(rootAddr), old(length), r, c', h1);
        h' := h;
        NonEmpty(t', h);
      }
    }

    /** Case 2.c: both children around the key are at their minimum. */
    method MergeAndRemove(node: Node, left: Node, right: Node, i: nat, key: Key, ghost t: Tree, ghost h: nat, ghost f: multiset<Address>)
      returns (r: Option<Value>, ghost t': Tree, ghost h': nat)
      requires Removable(t, h, f) && Is(node, t) && 0 < h && i < |t.entries| && t.entries[i].key == key
      requires Is(left, t.children[i]) && Is(right, t.children[i + 1])
      requires node != left && node != right && left != right
      requires |t.children[i].entries| == |t.children[i + 1].entries| == B - 1
      modifies this`length, this`rootAddr, store.Footprint(), node, left, right
      ensures Removed(t, h, f, key, old(store.nodes), old(rootAddr), old(length), r, t', h')
      decreases h, 0
    {
      hide NodeStore.Valid, NodeStore.Front, Denote, InPages, Node.LaidOut, MapHeader, MergeChildren, Flatten, Addrs, Drop, Find, Sorted;
      ghost var t1 := MergeChildren(t, i, left.address);
      MergeHere(t, i, left.address, key);
      MergeChildrenMeaning(t, i, left.address, h);
      EntriesSorted(t1);
      MergeAt(node, left, right, i, i + 1, t, h, f);
      SettleMerge(node, left, t1, i, h, f);
      SaveAgain(left, t1, i, h, f);
      r, t', h' := RemoveInMerged(left, key, t, t1, i, h, f);
    }

    /** Saving the merged child once more changes nothing. */
    method SaveAgain(child: Node, ghost t: Tree, ghost i: nat, ghost h: nat, ghost f: multiset<Address>)
      requires Steady() && Shape(t, h) && 0 < h && i <= |t.entries| && Is(child, t.children[i]) && Sorted(Flatten(t))
      requires if t.entries == [] then Stored(store.nodes, t.children[i]) && Owned(store.nodes, f, t.children[i])
               else Stored(store.nodes, t) && Owned(store.nodes, f, t)
      modifies store.Footprint(), child
      ensures Steady() && Is(child, t.children[i]) && Agree(old(store.nodes), store.nodes, f)
      ensures if t.entries == [] then Stored(store.nodes, t.children[i]) && Owned(store.nodes, f, t.children[i])
              else Stored(store.nodes, t) && Owned(store.nodes, f, t)
    {
      hide NodeStore.Valid, NodeStore.Front, Denote, InPages, Node.LaidOut, MapHeader;
      ghost var nodes := store.nodes;
      TopShape(t, h);
      ChildShape(t, h, i);
      TopShape(t.children[i], h - 1);
      if t.entries != [] {
        ChildStored(nodes, t, i);
      }
      TopFits(t.children[i]);
      ChildSorted(t, i);
      EntriesSorted(t.children[i]);
      StoredRooted(t.children[i].children);
      SaveNode(child, t.children[i]);
      if t.entries == [] {
        TopSaved(nodes, store.nodes, f, t.children[i]);
      } else {
        ChildSaved(nodes, store.nodes, f, t, i);
      }
    }

    // ---- Case 3: the key is not in an internal node

    method RemoveBelow(node: Node, i: nat, key: Key, ghost t: Tree, ghost h: nat, ghost f: multiset<Address>)
      returns (r: Option<Value>, ghost t': Tree, ghost h': nat)
      requires Removable(t, h, f) && Is(node, t) && 0 < h && Gap(t.entries, i, key)
      modifies this`length, this`rootAddr, store.Footprint(), node
      ensures Removed(t, h, f, key, old(store.nodes), old(rootAddr), old(length), r, t', h')
      decreases h, 2
    {
      hide NodeStore.Valid, NodeStore.Front, Denote, InPages, Node.LaidOut, MapHeader, Flatten, Addrs, Owned, Drop, Find, Shape, Sorted, Agree;
      TopShape(t, h);
      ChildShape(t, h, i);
      var child := LoadChild(node, i, t, h);
      if B <= |child.entries| {
        r, t' := RemoveInChild(child, key, t, i, h, f);
        h' := h;
        NonEmpty(t', h);
      } else {
        r, t', h' := RemoveFilling(node, child, i, key, t, h, f);
      }
    }

    /** The child at its minimum gets an entry from a sibling, or is merged with one. */
    method RemoveFilling(node: Node, child: Node, i: nat, key: Key, ghost t: Tree, ghost h: nat, ghost f: multiset<Address>)
      returns (r: Option<Value>, ghost t': Tree, ghost h': nat)
      requires Removable(t, h, f) && Is(node, t) && 0 < h && Gap(t.entries, i, key)
      requires Is(child, t.children[i]) && |t.children[i].entries| == B - 1 && node != child
      modifies this`length, this`rootAddr, store.Footprint(), node, child
      ensures Removed(t, h, f, key, old(store.nodes), old(rootAddr), old(length), r, t', h')
      decreases h, 1
    {
      hide NodeStore.Valid, NodeStore.Front, Denote, InPages, Node.LaidOut, MapHeader, Flatten, Addrs, Owned, Drop, Find, Shape, Sorted, Agree, Removed;
      TopShape(t, h);
      var left: Node? := null;
      if 0 < i {
        left := LoadChild(node, i - 1, t, h);
        ChildShape(t, h, i - 1);
      }
      var right: Node? := null;
      if i + 1 < |node.children| {
        right := LoadChild(node, i + 1, t, h);
        ChildShape(t, h, i + 1);
      }
      if left != null && B <= |left.entries| {
        r, t' := BorrowFromLeft(node, left, child, i - 1, key, t, h, f);
        h' := h;
      } else if right != null && B <= |right.entries| {
        r, t' := BorrowFromRight(node, child, right, i, key, t, h, f);
        h' := h;
      } else if left != null {
        r, t', h' := MergeIntoLeft(node, left, child, i - 1, key, t, h, f);
      } else {
        r, t', h' := MergeIntoRight(node, child, right, i, key, t, h, f);
      }
    }

    /** Case 3.b, left: the child is merged into its left sibling. */
    method MergeIntoLeft(node: Node, left: Node, child: Node, i: nat, key: Key, ghost t: Tree, ghost h: nat, ghost f: multiset<Address>)
      returns (r: Option<Value>, ghost t': Tree, ghost h': nat)
      requires Removable(t, h, f) && Is(node, t) && 0 < h && i < |t.entries| && Gap(t.entries, i + 1, key)
      requires Is(left, t.children[i]) && Is(child, t.children[i + 1])
      requires node != left && node != child && left != child
      requires |t.children[i].entries| == |t.children[i + 1].entries| == B - 1
      modifies this`length, this`rootAddr, store.Footprint(), node, left, child
      ensures Removed(t, h, f, key, old(store.nodes), old(rootAddr), old(length), r, t', h')
      decreases h, 0
    {
      hide NodeStore.Valid, NodeStore.Front, Denote, InPages, Node.LaidOut, MapHeader, MergeChildren, Flatten, Addrs, Drop, Find, Sorted;
      ghost var t1 := MergeChildren(t, i, left.address);
      MergeGap(t, i, i + 1, left.address, key);
      MergeChildrenMeaning(t, i, left.address, h);
      EntriesSorted(t1);
      MergeAt(node, left, child, i, i + 1, t, h, f);
      SettleMerge(node, left, t1, i, h, f);
      r, t', h' := RemoveInMerged(left, key, t, t1, i, h, f);
    }

    /** Case 3.b, right: the child is merged into its right sibling. */
    method MergeIntoRight(node: Node, child: Node, right: Node, i: nat, key: Key, ghost t: Tree, ghost h: nat, ghost f: multiset<Address>)
      returns (r: Option<Value>, ghost t': Tree, ghost h': nat)
      requires Removable(t, h, f) && Is(node, t) && 0 < h && i < |t.entries| && Gap(t.entries, i, key)
      requires Is(child, t.children[i]) && Is(right, t.children[i + 1])
      requires node != right && node != child && right != child
      requires |t.children[i].entries| == |t.children[i + 1].entries| == B - 1
      modifies this`length, this`rootAddr, store.Footprint(), node, right, child
      ensures Removed(t, h, f, key, old(store.nodes), old(rootAddr), old(length), r, t', h')
      decreases h, 0
    {
      hide NodeStore.Valid, NodeStore.Front, Denote, InPages, Node.LaidOut, MapHeader, MergeChildren, Flatten, Addrs, Drop, Find, Sorted;
      ghost var t1 := MergeChildren(t, i, right.address);
      MergeGap(t, i, i, right.address, key);
      MergeChildrenMeaning(t, i, right.address, h);
      EntriesSorted(t1);
      MergeAt(node, right, child, i, i, t, h, f);
      SettleMerge(node, right, t1, i, h, f);
      r, t', h' := RemoveInMerged(right, key, t, t1, i, h, f);
    }

    /** The key between the merged children is in the gap of the merged child. */
    lemma MergeHere(t: Tree, i: nat, a: Address, key: Key)
      requires i < |t.entries| && |t.children| == |t.entries| + 1 && Sorted(Flatten(t)) && t.entries[i].key == key
      ensures Gap(MergeChildren(t, i, a).entries, i, key)
    {
      EntriesSorted(t);
      assert MergeChildren(t, i, a).entries == t.entries[..i] + t.entries[i + 1..];
    }

    /** A key next to the merged children is in the gap of the merged child. */
    lemma MergeGap(t: Tree, i: nat, x: nat, a: Address, key: Key)
      requires i < |t.entries| && |t.children| == |t.entries| + 1 && Sorted(Flatten(t))
      requires i <= x <= i + 1 && Gap(t.entries, x, key)
      ensures Gap(MergeChildren(t, i, a).entries, i, key)
    {
      EntriesSorted(t);
      assert MergeChildren(t, i, a).entries == t.entries[..i] + t.entries[i + 1..];
    }

    // ---- Case 3.a: an entry moves in from a sibling

    method BorrowFromLeft(node: Node, left: Node, child: Node, i: nat, key: Key, ghost t: Tree, ghost h: nat, ghost f: multiset<Address>)
      returns (r: Option<Value>, ghost t': Tree)
      requires Removable(t, h, f) && Is(node, t) && 0 < h && i < |t.entries| && Gap(t.entries, i + 1, key)
      requires Is(left, t.children[i]) && Is(child, t.children[i + 1])
      requires node != left && node != child && left != child
      requires B <= |t.children[i].entries| && |t.children[i + 1].entries| == B - 1
      modifies this`length, this`rootAddr, store.Footprint(), node, left, child
      ensures Removed(t, h, f, key, old(store.nodes), old(rootAddr), old(length), r, t', h)
      decreases h, 0
    {
      hide NodeStore.Valid, NodeStore.Front, Denote, InPages, Node.LaidOut, MapHeader;
      ghost var t1 := RotateFromLeft(t, i);
      RotateFromLeftMeaning(t, i, h);
      RotateGap(t, i, key, h);
      MoveFromLeft(node, left, child, i, t, h, f);
      r, t' := RemoveInChild(child, key, t1, i + 1, h, f);
      NonEmpty(t', h);
    }

    method BorrowFromRight(node: Node, child: Node, right: Node, i: nat, key: Key, ghost t: Tree, ghost h: nat, ghost f: multiset<Address>)
      returns (r: Option<Value>, ghost t': Tree)
      requires Removable(t, h, f) && Is(node, t) && 0 < h && i < |t.entries| && Gap(t.entries, i, key)
      requires Is(child, t.children[i]) && Is(right, t.children[i + 1])
      requires node != right && node != child && right != child
      requires B <= |t.children[i + 1].entries| && |t.children[i].entries| == B - 1
      modifies this`length, this`rootAddr, store.Footprint(), node, right, child
      ensures Removed(t, h, f, key, old(store.nodes), old(rootAddr), old(length), r, t', h)
      decreases h, 0
    {
      hide NodeStore.Valid, NodeStore.Front, Denote, InPages, Node.LaidOut, MapHeader;
      ghost var t1 := RotateFromRight(t, i);
      RotateFromRightMeaning(t, i, h);
      RotateGap(t, i, key, h);
      MoveFromRight(node, child, right, i, t, h, f);
      r, t' := RemoveInChild(child, key, t1, i, h, f);
      NonEmpty(t', h);
    }

    /** The last entry of a node leaves it, and the last child with it. */
    method GiveLast(node: Node, ghost t: Tree, ghost h: nat) returns (e: Entry, moved: seq<Address>)
      requires store.Valid() && Is(node, t) && Shape(t, h) && 1 < |t.entries|
      modifies node`entries, node`children
      ensures Is(node, WithoutLast(t)) && e == t.entries[|t.entries| - 1]
      ensures moved == Roots(Cut(t.children, |t.entries|, |t.children|))
    {
      hide NodeStore.Valid, NodeStore.Front, Denote, InPages, Node.LaidOut, MapHeader;
      TopShape(t, h);
      var last := node.PopEntry(store);
      e := last.value;
      moved := [];
      if 0 < |node.children| {
        moved := [node.children[|node.children| - 1]];
        node.children := node.children[..|node.children| - 1];
      }
      assert Roots(WithoutLast(t).children) == node.children;
    }

    /** The first entry of a node leaves it, and the first child with it. */
    method GiveFirst(node: Node, ghost t: Tree, ghost h: nat) returns (e: Entry, moved: seq<Address>)
      requires store.Valid() && Is(node, t) && Shape(t, h) && 1 < |t.entries|
      modifies node`entries, node`children
      ensures Is(node, WithoutFirst(t)) && e == t.entries[0]
      ensures moved == Roots(Cut(t.children, 0, 1))
    {
      hide NodeStore.Valid, NodeStore.Front, Denote, InPages, Node.LaidOut, MapHeader;
      TopShape(t, h);
      e := node.RemoveEntry(0, store);
      moved := [];
      if node.kind.Internal? {
        moved := [node.children[0]];
        node.children := node.children[1..];
      }
      assert Roots(WithoutFirst(t).children) == node.children;
    }

    /** An entry, and a child if there is one, enter a node on the left or on the right. */
    method TakeOnLeft(node: Node, e: Entry, moved: seq<Address>, ghost t: Tree, ghost ts: seq<Tree>)
      requires Is(node, t) && moved == Roots(ts) && (ts == [] <==> t.children == [])
      modifies node`entries, node`children
      ensures Is(node, Tree(t.addr, [e] + t.entries, ts + t.children))
    {
      hide NodeStore.Valid, NodeStore.Front, Denote, InPages, Node.LaidOut, MapHeader;
      node.InsertEntry(0, e, store);
      node.children := moved + node.children;
      assert Roots(ts + t.children) == node.children;
    }

    method TakeOnRight(node: Node, e: Entry, moved: seq<Address>, ghost t: Tree, ghost ts: seq<Tree>)
      requires Is(node, t) && moved == Roots(ts) && (ts == [] <==> t.children == [])
      modifies node`entries, node`children
      ensures Is(node, Tree(t.addr, t.entries + [e], t.children + ts))
    {
      hide NodeStore.Valid, NodeStore.Front, Denote, InPages, Node.LaidOut, MapHeader;
      node.PushEntry(e, store);
      node.children := node.children + moved;
      assert Roots(t.children + ts) == node.children;
    }

    /** The entry between two children changes, and neither child moves. */
    method SwapBetween(node: Node, i: nat, e: Entry, ghost t: Tree, ghost l: Tree, ghost r: Tree) returns (old_: Entry)
      requires store.Valid() && Is(node, t) && i < |t.entries| && |t.children| == |t.entries| + 1
      requires l.addr == t.children[i].addr && r.addr == t.children[i + 1].addr
      modifies node`entries
      ensures Is(node, Edit(t, i, i + 1, [e], [l, r])) && old_ == t.entries[i]
    {
      hide NodeStore.Valid, NodeStore.Front, Denote, InPages, Node.LaidOut, MapHeader;
      old_ := node.SwapEntry(i, e, store);
      assert t.entries[..i] + [e] + t.entries[i + 1..] == t.entries[i := e];
      assert Roots(Edit(t, i, i + 1, [e], [l, r]).children) == Roots(t.children);
    }

    /** What a rotation makes can be saved. */
    lemma RotateLeftSorted(t: Tree, i: nat, h: nat)
      requires Shape(t, h) && 0 < h && i < |t.entries| && B <= |t.children[i].entries| && |t.children[i + 1].entries| == B - 1
      requires Sorted(Flatten(t))
      ensures Sorted(WithoutLast(t.children[i]).entries) && Sorted(FromLeft(t.children[i], t.entries[i], t.children[i + 1]).entries)
      ensures Sorted(RotateFromLeft(t, i).entries)
    {
      hide Flatten, Sorted;
      TopShape(t, h);
      var t1 := RotateFromLeft(t, i);
      RotateFromLeftMeaning(t, i, h);
      EntriesSorted(t1);
      TopShape(t1, h);
      ChildSorted(t1, i);
      EntriesSorted(t1.children[i]);
      ChildSorted(t1, i + 1);
      EntriesSorted(t1.children[i + 1]);
    }

    lemma RotateLeftSavable(t: Tree, i: nat, h: nat)
      requires Shape(t, h) && 0 < h && i < |t.entries| && B <= |t.children[i].entries| && |t.children[i + 1].entries| == B - 1
      requires AllFit(store.codec, t.entries) && AllFit(store.codec, t.children[i].entries) && AllFit(store.codec, t.children[i + 1].entries)
      requires Sorted(Flatten(t)) && Rooted(store.nodes, t.children)
      requires Rooted(store.nodes, t.children[i].children) && Rooted(store.nodes, t.children[i + 1].children)
      ensures Savable(WithoutLast(t.children[i])) && Savable(FromLeft(t.children[i], t.entries[i], t.children[i + 1])) && Savable(RotateFromLeft(t, i))
    {
      hide EntryFits, Flatten, Sorted, Shape;
      TopShape(t, h);
      ChildShape(t, h, i);
      ChildShape(t, h, i + 1);
      RotateLeftSorted(t, i, h);
    }

    /** What is rotated was stored, and fits. */
    lemma RotateLeftReady(t: Tree, i: nat, h: nat)
      requires store.Valid() && Stored(store.nodes, t) && Shape(t, h) && 0 < h && Sorted(Flatten(t)) && i < |t.entries|
      requires B <= |t.children[i].entries| && |t.children[i + 1].entries| == B - 1
      ensures Savable(WithoutLast(t.children[i])) && Savable(FromLeft(t.children[i], t.entries[i], t.children[i + 1])) && Savable(RotateFromLeft(t, i))
    {
      hide NodeStore.Valid, EntryFits, AllFit, Flatten, Sorted, SavableAmong, Rooted;
      TopShape(t, h);
      MergeFits(t, i, NULL);
      TopFits(t);
      StoredRooted(t.children);
      ChildRooted(t, i);
      ChildRooted(t, i + 1);
      RotateLeftSavable(t, i, h);
    }

    lemma RotateRightSorted(t: Tree, i: nat, h: nat)
      requires Shape(t, h) && 0 < h && i < |t.entries| && B <= |t.children[i + 1].entries| && |t.children[i].entries| == B - 1
      requires Sorted(Flatten(t))
      ensures Sorted(WithoutFirst(t.children[i + 1]).entries) && Sorted(FromRight(t.children[i], t.entries[i], t.children[i + 1]).entries)
      ensures Sorted(RotateFromRight(t, i).entries)
    {
      hide Flatten, Sorted;
      TopShape(t, h);
      var t1 := RotateFromRight(t, i);
      RotateFromRightMeaning(t, i, h);
      EntriesSorted(t1);
      TopShape(t1, h);
      ChildSorted(t1, i);
      EntriesSorted(t1.children[i]);
      ChildSorted(t1, i + 1);
      EntriesSorted(t1.children[i + 1]);
    }

    lemma RotateRightSavable(t: Tree, i: nat, h: nat)
      requires Shape(t, h) && 0 < h && i < |t.entries| && B <= |t.children[i + 1].entries| && |t.children[i].entries| == B - 1
      requires AllFit(store.codec, t.entries) && AllFit(store.codec, t.children[i].entries) && AllFit(store.codec, t.children[i + 1].entries)
      requires Sorted(Flatten(t)) && Rooted(store.nodes, t.children)
      requires Rooted(store.nodes, t.children[i].children) && Rooted(store.nodes, t.children[i + 1].children)
      ensures Savable(WithoutFirst(t.children[i + 1])) && Savable(FromRight(t.children[i], t.entries[i], t.children[i + 1])) && Savable(RotateFromRight(t, i))
    {
      hide EntryFits, Flatten, Sorted, Shape;
      TopShape(t, h);
      ChildShape(t, h, i);
      ChildShape(t, h, i + 1);
      RotateRightSorted(t, i, h);
    }

    /** What is rotated was stored, and fits. */
    lemma RotateRightReady(t: Tree, i: nat, h: nat)
      requires store.Valid() && Stored(store.nodes, t) && Shape(t, h) && 0 < h && Sorted(Flatten(t)) && i < |t.entries|
      requires B <= |t.children[i + 1].entries| && |t.children[i].entries| == B - 1
      ensures Savable(WithoutFirst(t.children[i + 1])) && Savable(FromRight(t.children[i], t.entries[i], t.children[i + 1])) && Savable(RotateFromRight(t, i))
    {
      hide NodeStore.Valid, EntryFits, AllFit, Flatten, Sorted, SavableAmong, Rooted;
      TopShape(t, h);
      MergeFits(t, i, NULL);
      TopFits(t);
      StoredRooted(t.children);
      ChildRooted(t, i);
      ChildRooted(t, i + 1);
      RotateRightSavable(t, i, h);
    }

    /** The last entry of the left sibling moves up, the entry above it moves down. */
    method MoveFromLeft(node: Node, left: Node, child: Node, i: nat, ghost t: Tree, ghost h: nat, ghost f: multiset<Address>)
      requires Steady() && Is(node, t) && Stored(store.nodes, t) && Owned(store.nodes, f, t) && Shape(t, h) && 0 < h && Sorted(Flatten(t))
      requires i < |t.entries| && Is(left, t.children[i]) && Is(child, t.children[i + 1])
      requires node != left && node != child && left != child
      requires B <= |t.children[i].entries| && |t.children[i + 1].entries| == B - 1
      modifies store.Footprint(), node, left, child
      ensures Steady() && Is(child, RotateFromLeft(t, i).children[i + 1])
      ensures Stored(store.nodes, RotateFromLeft(t, i)) && Owned(store.nodes, f, RotateFromLeft(t, i))
      ensures Agree(old(store.nodes), store.nodes, f)
    {
      hide NodeStore.Valid, NodeStore.Front, Denote, InPages, Node.LaidOut, MapHeader, SavableAmong, Sorted, Flatten;
      ghost var nodes := store.nodes;
      ghost var l, m, c := t.children[i], t.entries[i], t.children[i + 1];
      ghost var l', c', t1 := WithoutLast(l), FromLeft(l, m, c), RotateFromLeft(t, i);
      ChildShape(t, h, i);
      ChildShape(t, h, i + 1);
      DistinctTops(nodes, f, t, i);
      RotateLeftReady(t, i, h);
      var e, moved := GiveLast(left, l, h - 1);
      var p := SwapBetween(node, i, e, t, l', c');
      TakeOnLeft(child, p, moved, c, Cut(l.children, |l.entries|, |l.children|));
      SaveThree(left, child, node, l', c', t1);
      RotateLeftStored(nodes, store.nodes, f, t, i, h);
    }

    /** The first entry of the right sibling moves up, the entry above it moves down. */
    method MoveFromRight(node: Node, child: Node, right: Node, i: nat, ghost t: Tree, ghost h: nat, ghost f: multiset<Address>)
      requires Steady() && Is(node, t) && Stored(store.nodes, t) && Owned(store.nodes, f, t) && Shape(t, h) && 0 < h && Sorted(Flatten(t))
      requires i < |t.entries| && Is(child, t.children[i]) && Is(right, t.children[i + 1])
      requires node != right && node != child && right != child
      requires B <= |t.children[i + 1].entries| && |t.children[i].entries| == B - 1
      modifies store.Footprint(), node, right, child
      ensures Steady() && Is(child, RotateFromRight(t, i).children[i])
      ensures Stored(store.nodes, RotateFromRight(t, i)) && Owned(store.nodes, f, RotateFromRight(t, i))
      ensures Agree(old(store.nodes), store.nodes, f)
    {
      hide NodeStore.Valid, NodeStore.Front, Denote, InPages, Node.LaidOut, MapHeader, SavableAmong, Sorted, Flatten;
      ghost var nodes := store.nodes;
      ghost var c, m, r := t.children[i], t.entries[i], t.children[i + 1];
      ghost var c', r', t1 := FromRight(c, m, r), WithoutFirst(r), RotateFromRight(t, i);
      ChildShape(t, h, i);
      ChildShape(t, h, i + 1);
      DistinctTops(nodes, f, t, i);
      RotateRightReady(t, i, h);
      var e, moved := GiveFirst(right, r, h - 1);
      var p := SwapBetween(node, i, e, t, c', r');
      TakeOnRight(child, p, moved, c, Cut(r.children, 0, 1));
      SaveThree(right, child, node, r', c', t1);
      RotateRightStored(nodes, store.nodes, f, t, i, h);
    }
  }
}
