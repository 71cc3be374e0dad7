/** Whole runs of a map: whatever is called, and however often the map is dropped and found again in memory. */
module MapRuns {
  import opened Types
  import opened SortedSeq
  import opened TreeOps
  import opened Layout
  import opened Memories
  import opened Allocators
  import opened Nodes
  import opened Headers
  import opened Paging
  import opened BTree
  import Trees
  import Accounting
  import PageTrees

  datatype Op = Insert(key: Key, value: Value) | Remove(key: Key) | Get(key: Key) | PopFirst | PopLast | Clear | Reload

  datatype Answer = Nothing | Old(value: Option<Value>) | Popped(entry: Option<Entry>)

  function Lookup(m: map<Key, Value>, k: Key): Option<Value> {
    if k in m then Some(m[k]) else None
  }

  /** An end of the map, removed. */
  ghost predicate TakenOff(m: map<Key, Value>, r: Option<Entry>, m': map<Key, Value>, first: bool) {
    if m == map[] then r.None? && m' == m
    else
      && r.Some? && Lookup(m, r.value.key) == Some(r.value.value) && m' == m - {r.value.key}
      && forall k :: k in m ==> if first then r.value.key <= k else k <= r.value.key
  }

  /** What one call does to a plain map, and what it answers. */
  ghost predicate Explained(m: map<Key, Value>, op: Op, a: Answer, m': map<Key, Value>) {
    match op
    case Insert(k, v) => m' == m[k := v] && a == Old(Lookup(m, k))
    case Remove(k) => m' == m - {k} && a == Old(Lookup(m, k))
    case Get(k) => m' == m && a == Old(Lookup(m, k))
    case PopFirst => a.Popped? && TakenOff(m, a.entry, m', true)
    case PopLast => a.Popped? && TakenOff(m, a.entry, m', false)
    case Clear => m' == map[]
    case Reload => m' == m
  }

  lemma {:induction false} InMap(s: seq<Entry>, k: Key) returns (p: nat)
    requires k in ToMap(s)
    ensures p < |s| && s[p].key == k
  {
    FindMeaning(s, k);
    p := FoundAt(s, k);
  }

  lemma {:induction false} FirstOff(s: seq<Entry>, e: Entry, s': seq<Entry>)
    requires Sorted(s) && s == [e] + s'
    ensures TakenOff(ToMap(s), Some(e), ToMap(s'), true)
  {
    DropMeaning(s, e.key);
    assert s[1..] == s';
    forall k | k in ToMap(s)
      ensures e.key <= k
    {
      var p := InMap(s, k);
    }
  }

  lemma {:induction false} LastOff(s: seq<Entry>, e: Entry, s': seq<Entry>)
    requires Sorted(s) && s == s' + [e]
    ensures TakenOff(ToMap(s), Some(e), ToMap(s'), false)
  {
    DropMeaning(s, e.key);
    DropLast(s);
    assert s[..|s| - 1] == s' && s[|s| - 1] == e;
    FindAt(s, |s| - 1);
    FindMeaning(s, e.key);
    forall k | k in ToMap(s)
      ensures k <= e.key
    {
      var p := InMap(s, k);
    }
  }

  /** The map is dropped and found again in its memory. */
  method Reopen(b: BTreeMap) returns (b': BTreeMap)
    requires b.Valid()
    ensures b'.Valid() && b'.Contents() == b.Contents() && b'.store.codec == b.store.codec && b'.store.nodes == b.store.nodes
    ensures b'.store.allocator.memory == b.store.allocator.memory && fresh(b') && fresh(b'.store) && fresh(b'.store.allocator)
  {
    hide BTreeMap.Valid;
    b' := new BTreeMap.Load(b.store.allocator.memory, b.store.codec, b);
  }

  /** One call. */
  method Step(b: BTreeMap, op: Op) returns (a: Answer, b': BTreeMap)
    requires b.Valid() && (op.Insert? ==> EntryFits(b.store.codec, Entry(op.key, op.value)))
    modifies b, b.store.Footprint()
    ensures b'.Valid() && Explained(ToMap(old(b.Contents())), op, a, ToMap(b'.Contents()))
    ensures b'.store.allocator.memory == b.store.allocator.memory && b'.store.codec == b.store.codec
    ensures b' == b || (fresh(b') && fresh(b'.store) && fresh(b'.store.allocator))
  {
    hide NodeStore.Valid, NodeStore.Front, MapHeader, Trees.Flatten, Trees.Shape, PageTrees.Stored, PageTrees.Owned, Sorted, Find, Put, Drop, ToMap, TakenOff;
    ghost var s := b.Contents();
    b.ContentsSorted();
    b', a := b, Nothing;
    match op
    case Insert(k, v) =>
      PutMeaning(s, k, v);
      FindMeaning(s, k);
      var r := b.Insert(k, v);
      a := Old(r);
    case Remove(k) =>
      DropMeaning(s, k);
      FindMeaning(s, k);
      var r := b.Remove(k);
      a := Old(r);
    case Get(k) =>
      FindMeaning(s, k);
      var r := b.Get(k);
      a := Old(r);
    case PopFirst =>
      var r := b.PopFirst();
      a := Popped(r);
      FirstEnd(s, r, b.Contents());
    case PopLast =>
      var r := b.PopLast();
      a := Popped(r);
      LastEnd(s, r, b.Contents());
    case Clear =>
      b.ClearNew();
      Empty();
    case Reload =>
      b' := Reopen(b);
  }

  lemma {:induction false} Empty()
    ensures ToMap([]) == map[]
  {
  }

  lemma {:induction false} FirstEnd(s: seq<Entry>, r: Option<Entry>, s': seq<Entry>)
    requires Sorted(s) && (r.None? <==> s == []) && (r.None? ==> s' == []) && (r.Some? ==> s == [r.value] + s')
    ensures TakenOff(ToMap(s), r, ToMap(s'), true)
  {
    if r.Some? {
      FirstOff(s, r.value, s');
    }
  }

  lemma {:induction false} LastEnd(s: seq<Entry>, r: Option<Entry>, s': seq<Entry>)
    requires Sorted(s) && (r.None? <==> s == []) && (r.None? ==> s' == []) && (r.Some? ==> s == s' + [r.value])
    ensures TakenOff(ToMap(s), r, ToMap(s'), false)
  {
    if r.Some? {
      LastOff(s, r.value, s');
    }
  }

  /** The length is the number of keys, and no chunk is held exactly if there is no key. */
  ghost predicate Tallied(m: map<Key, Value>, length: nat, chunks: nat) {
    length == |m| && (chunks == 0 <==> m == map[])
  }

  /** Whether what a run inserts can be stored. */
  ghost predicate RunFits(c: Codec, ops: seq<Op>) {
    forall k :: 0 <= k < |ops| && ops[k].Insert? ==> EntryFits(c, Entry(ops[k].key, ops[k].value))
  }

  /** Every run answers as a plain map does; the length is the number of keys throughout, and no chunk is held by an
      empty map. */
  method RunFrom(start: BTreeMap, ops: seq<Op>)
    returns (answers: seq<Answer>, lengths: seq<nat>, chunks: seq<nat>, ghost trace: seq<map<Key, Value>>)
    requires start.Valid() && RunFits(start.store.codec, ops)
    modifies start, start.store.Footprint()
    ensures |answers| == |ops| && |trace| == |lengths| == |chunks| == |ops| + 1 && trace[0] == ToMap(old(start.Contents()))
    ensures forall k :: 0 <= k < |ops| ==> Explained(trace[k], ops[k], answers[k], trace[k + 1])
    ensures forall k :: 0 <= k <= |ops| ==> Tallied(trace[k], lengths[k], chunks[k])
  {
    hide BTreeMap.Valid, BTreeMap.Contents, Explained, ToMap, Tallied, EntryFits;
    var b := start;
    Tally(b);
    answers, lengths, chunks, trace := [], [b.length], [b.store.allocator.numAllocated], [ToMap(b.Contents())];
    for i := 0 to |ops|
      invariant b.Valid() && b.store.allocator.memory == start.store.allocator.memory && b.store.codec == start.store.codec
      invariant b == start || (fresh(b) && fresh(b.store) && fresh(b.store.allocator))
      invariant |answers| == i && |trace| == |lengths| == |chunks| == i + 1
      invariant trace[0] == ToMap(old(start.Contents())) && trace[i] == ToMap(b.Contents())
      invariant forall k :: 0 <= k < i ==> Explained(trace[k], ops[k], answers[k], trace[k + 1])
      invariant forall k :: 0 <= k <= i ==> Tallied(trace[k], lengths[k], chunks[k])
    {
      var a;
      a, b := Step(b, ops[i]);
      Tally(b);
      answers, lengths, chunks := answers + [a], lengths + [b.length], chunks + [b.store.allocator.numAllocated];
      trace := trace + [ToMap(b.Contents())];
    }
  }

  /** From a memory that may hold anything, a run of a new map. */
  method Run(memory: Memory, codec: Codec, keyBound: Option<nat>, valueBound: Option<nat>, ops: seq<Op>)
    returns (answers: seq<Answer>, lengths: seq<nat>, chunks: seq<nat>, ghost trace: seq<map<Key, Value>>)
    requires Sound(codec) && RunFits(codec.(slots := None), ops)
    requires Genuine(memory.bytes) && MINIMUM_PAGE_SIZE <= PageBytes(NewVersion(keyBound, valueBound))
    modifies memory
    ensures |answers| == |ops| && |trace| == |lengths| == |chunks| == |ops| + 1 && trace[0] == map[]
    ensures forall k :: 0 <= k < |ops| ==> Explained(trace[k], ops[k], answers[k], trace[k + 1])
    ensures forall k :: 0 <= k <= |ops| ==> Tallied(trace[k], lengths[k], chunks[k])
  {
    hide BTreeMap.Valid, Explained, ToMap, Tallied, RunFits;
    var b := new BTreeMap(memory, codec, keyBound, valueBound);
    Empty();
    answers, lengths, chunks, trace := RunFrom(b, ops);
  }

  /** A run that starts as a V1 map, is reloaded as a V2 map, and goes on with nodes of both layouts: as long as
      entries fit the slots, it answers as one plain map does, before, after and across the migration. */
  method RunMigrated(memory: Memory, codec: Codec, maxKey: nat, maxValue: nat, before: seq<Op>, after: seq<Op>)
    returns (answers: seq<Answer>, lengths: seq<nat>, chunks: seq<nat>, ghost trace: seq<map<Key, Value>>)
    requires Sound(codec) && RunFits(codec.(slots := Some(Room(maxKey, maxValue))), before + [Reload] + after)
    requires Genuine(memory.bytes) && MaxNodeSize(maxKey, maxValue) <= MAX_LENGTH
    modifies memory
    ensures var ops := before + [Reload] + after;
            && |answers| == |ops| && |trace| == |lengths| == |chunks| == |ops| + 1 && trace[0] == map[]
            && (forall k :: 0 <= k < |ops| ==> Explained(trace[k], ops[k], answers[k], trace[k + 1]))
            && (forall k :: 0 <= k <= |ops| ==> Tallied(trace[k], lengths[k], chunks[k]))
  {
    hide BTreeMap.Valid, Explained, ToMap, Tallied, RunFits;
    var b := new BTreeMap.NewV1(memory, codec, maxKey, maxValue);
    Empty();
    answers, lengths, chunks, trace := RunFrom(b, before + [Reload] + after);
  }

  /** The length, the chunks and the height of a map in any state: a lookup loads `height + 1` nodes at most. */
  lemma {:induction false} Tally(b: BTreeMap)
    requires b.Valid()
    ensures Tallied(ToMap(b.Contents()), b.length, b.store.allocator.numAllocated)
    ensures b.rootAddr != NULL ==> 2 * Trees.Pow6(b.height) - 1 <= b.length
  {
    hide NodeStore.Valid, NodeStore.Front, MapHeader, Trees.Flatten, Trees.Shape, Trees.Pow6, PageTrees.Stored, PageTrees.Owned, Sorted, ToMap;
    b.ContentsSorted();
    MapSize(b.Contents());
    b.Accounted();
    if b.rootAddr == NULL {
      Empty();
    } else {
      Trees.HeightBound(b.tree, b.height);
      Trees.NonEmpty(b.tree, b.height);
      b.RootStored();
      Accounting.RootCounted(b.store.nodes, b.tree);
      assert b.tree.addr in multiset(b.store.allocator.Live());
    }
  }
}
