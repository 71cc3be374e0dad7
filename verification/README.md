# Stable structures, verified

This project models the data structures of a library that keeps its state in a raw,
growing byte memory, so that a program can drop everything and find it again after an
upgrade: a B-tree map with its pages, allocator and iterators, a manager that divides one
memory among 255 virtual ones, a growable log, a slot vector, a heap, sets, tuple codecs,
a replication log for remote clients, and a vote cascade on top.

`dafny verify dfyconfig.toml` checks all of it.

## How it is built

The map is modelled in layers, and each is proved against the one above it.

1. `SortedSeq` says what an ordered map is: a sorted sequence of entries, with its meaning as
   a finite map. `Weaving`, `Trees`, `Restructure` and `TreeOps` are the theory of B-trees as
   values: contents, shape (equal depth, 5 to 11 entries, one more child than entries) and
   what split, merge, rotation and replacement do to them.
2. `PageTrees`, `StoredOps` and `Ownership` say when a set of pages stores a tree, and that
   pages have one owner each. `Accounting` concludes that no page is lost or shared.
3. `Memories`, `Allocators`, `Paging`, `NodeIO`, `Layout` and `Nodes` go down to bytes: a free
   list of chunks, nodes as strings over a chain of pages, entries loaded when first used.
   `FixedNodes` is the older node layout, V1, with a slot of fixed size for each entry; a tree
   may hold nodes of both layouts. `Headers` is the header of the map.
4. `BTree` is the map itself, a class whose methods follow the source step by step.
   `MapRuns` states the result for whole runs. `Ranges`, `Spots` and `Iteration` are the
   double-ended iterator; `SetMerges` runs two of them against each other.

`Buckets` and `MemoryManagers` are the virtual memories with their translation caches.
`Logs`, `BaseVecs` and `MinHeaps` are the smaller structures. `ChangeFeed` is a theory of
servers and clients as a transition system, `GuidedSync` of the client the guide describes;
`Replog` shows that every call of the replication
log is a step of it, and `ReplogMap` that the stored parts (two maps and a log) carry it out.
`Tuples`, `Cascade` and `NeuronStores` stand by themselves.

## Conventions

- Keys are only compared, so they are modelled as reals: a key type has countably many values, and
  every countable linear order embeds in the reals. Which reals are the keys of a type, and how a key
  is written as bytes, is a parameter (`Codec`): a key of the type decodes to itself (`Sound`). `KeyTypes`
  shows that there are such codecs. Values are byte strings.
- A memory cell is a natural number, so that an encoded integer always decodes to itself; what its width
  cannot hold would go to its top cell. That this never happens is part of every invariant: all cells are
  bytes (`AllBytes`), for structures that store addresses as long as the memory is no larger than 64-bit
  addresses can tell (`Genuine`); a memory never grows beyond that in the source, the program ends instead.
  Keys, values and items are therefore required to be made of bytes and no longer than 32 bits can say
  (`EntryFits`, `Fits`). Where the source cuts off at 32 bits (the page size of a new map), so does the model.
- The room in the slots of V1 nodes is part of the `Codec` of a map. A map that cannot hold V1 nodes
  has none, and `EntryFits` then asks for no more than the above.
- Whether a memory can grow is a parameter of the operations that handle the failure
  (`safe_write`, log, vector, `try_insert`, `try_remove`); elsewhere a failure traps.
- What the source asserts is proved: of chunks, nodes, overflow pages and headers (magic, version), of V1
  nodes before they are saved (shape, order, not empty), and of the tree in every case of insertion and
  removal. Panics that a caller can cause show up as a result: the memory manager's out-of-bounds panics
  are `None` and `false`.

## Where code and documentation disagree

The integration guide's full sync takes the sequence number returned with the last, empty snapshot
page. If the server changes a row behind the pages, the client never learns of it:
`GuidedSync.GuidedClientMisses` and `GuidedSync.GuidedClientKeepsCleared` are such runs.
`GuidedSync.GuidedClientExact` gives the exact condition on what happens between the pages, and
`GuidedSync.GuidedClientCheck` one that a client can check in the log. A client that replays from the
number of the first page is always right (`ChangeFeed.ClientPages`).

The memory manager's own checks expect an access out of bounds to panic. On a cache hit the size is not
looked at: an access past the size is accepted as long as it stays in the cached bucket
(`MemoryManagers.PastSizeRun`). It never reaches another memory. It can happen exactly if the size is no
multiple of the bucket size (`MemoryManagers.PastSizeExact`).

A map with a derived page size is written with the layout version of a V1 map; it is read back
correctly only through the migration on loading, which is what `Headers.HeaderRoundTrip` states.

## Model

| member | source | states |
|---|---|---|
| `MapRuns.Run` | src/btreemap.rs:274-783 | From a memory that may hold anything, every run of insert, remove, get, pop at either end, clear and reload answers call by call as a plain finite map does; throughout, `len` is the number of keys, and no chunk is held exactly if the map is empty |
| `MapRuns.RunFrom` | src/btreemap.rs:274-783 | The same from any valid map, whatever layouts its nodes have |
| `MapRuns.RunMigrated` | src/btreemap.rs:372-439 | A run that starts as a V1 map, is reloaded as a V2 map and goes on with nodes of both layouts answers as one plain map throughout, as long as entries fit the sizes the map was created for |
| `MapRuns.Step` | src/btreemap.rs:396-783 | One call changes the finite map and answers as that call should; a reload changes nothing |
| `MapRuns.Tally` | src/btreemap.rs:652-683 | In every state the length is the number of keys, chunks are held iff there are keys, and a tree of height h has at least 2*6^h - 1 entries, which bounds the nodes a lookup loads |
| `BTree.BTreeMap.constructor` | src/btreemap.rs:326-366 | A new map is empty and satisfies the whole invariant, on whatever bytes the memory held, whenever the page size, cut off at 32 bits, is one that nodes can be saved to |
| `BTree.BTreeMap.NewV1` | src/btreemap.rs:372-393 | A new V1 map is empty and satisfies the whole invariant |
| `BTree.BTreeMap.Load` | src/btreemap.rs:396-439 | A map found in memory has the contents, nodes, root, length and page size of the one that was saved there, V1 maps and trees of mixed layouts included; only the two headers are read |
| `BTree.BTreeMap.SaveHeader` | src/btreemap.rs:1314-1352 | The header in memory is up to date; no node changes |
| `BTree.BTreeMap.InsertFromRoot` | src/btreemap.rs:518-547 | A full root gets a new root and is split before the insertion; contents become those with the key put in |
| `BTree.BTreeMap.Insert` | src/btreemap.rs:495-549 | Contents become the sorted sequence with the key put in; returns the old value; keeps the whole invariant: order, equal depth, 5 to 11 entries, page ownership, length, header |
| `BTree.BTreeMap.InsertNonfull` | src/btreemap.rs:552-608 | The same below any node that is not full, with the pages of all other nodes untouched |
| `BTree.BTreeMap.SplitChildAt` | src/btreemap.rs:627-649 | The stored tree becomes the one with child i split at its median; contents and shape are those of `SplitChildMeaning` |
| `BTree.BTreeMap.SplitMissesKey` | src/btreemap.rs:591-597 | After the split the repeated search cannot find the key: it is not the promoted median, and its gap is one of the two halves |
| `BTree.BTreeMap.InsertAfterSplit` | src/btreemap.rs:594-603 | Searching again after the split leads to the half that takes the key; the insertion below it is that of the whole tree |
| `BTree.BTreeMap.UpdateValue` | src/btreemap.rs:1307-1311 | Replaces one value in one stored node and nothing else |
| `BTree.BTreeMap.Get` | src/btreemap.rs:652-661 | The value of the key in the contents, none if absent |
| `BTree.BTreeMap.ContainsKey` | src/btreemap.rs:664-667 | True exactly if the contents have the key |
| `BTree.BTreeMap.Traverse` | src/btreemap.rs:670-683 | The walk from a node down finds what the subtree's contents have; it ends because the height falls |
| `BTree.BTreeMap.Remove` | src/btreemap.rs:750-759 | Contents lose exactly the key; returns the old value; an absent key may reshape the tree but leaves contents and length alone; keeps the whole invariant |
| `BTree.BTreeMap.RemoveHelper` | src/btreemap.rs:786-1151 | Removal below any node through all cases: new shape, new contents, new root and length, pages of other nodes untouched; ends because the height falls |
| `BTree.BTreeMap.RemoveFromLeaf` | src/btreemap.rs:796-821 | Case 1: the key leaves a leaf; the last entry of the map frees the root |
| `BTree.BTreeMap.RemoveHere` | src/btreemap.rs:825-949 | Case 2: the key is in an internal node; whichever neighbour can lose an entry, the subtree loses exactly that key |
| `BTree.BTreeMap.ReplaceByPredecessor` | src/btreemap.rs:828-861 | Case 2.a: the predecessor takes the place of the key and leaves its leaf |
| `BTree.BTreeMap.ReplaceBySuccessor` | src/btreemap.rs:863-896 | Case 2.b: the successor takes the place of the key and leaves its leaf |
| `BTree.BTreeMap.MergeAndRemove` | src/btreemap.rs:898-948 | Case 2.c: both children and the key become one node, from which the key is removed; an emptied root gives way |
| `BTree.BTreeMap.RemoveBelow` | src/btreemap.rs:950-1147 | Case 3: the key, if present, is below child i, which is filled up first if it cannot lose an entry |
| `BTree.BTreeMap.RemoveFilling` | src/btreemap.rs:963-1147 | A child at its minimum borrows or merges, left before right, and the subtree loses exactly the key |
| `BTree.BTreeMap.BorrowFromLeft` | src/btreemap.rs:977-1030 | Case 3.a left: an entry and a child rotate in from the left sibling; removal below equals removal from the whole |
| `BTree.BTreeMap.BorrowFromRight` | src/btreemap.rs:1032-1085 | Case 3.a right: the mirror image |
| `BTree.BTreeMap.MergeIntoLeft` | src/btreemap.rs:1089-1115 | Case 3.b left: the child is merged into its left sibling, pages and root accounted for |
| `BTree.BTreeMap.MergeIntoRight` | src/btreemap.rs:1117-1144 | Case 3.b right: the mirror image |
| `BTree.BTreeMap.MergeAt` | src/btreemap.rs:1275-1278 | Two minimal children and the entry between them become one stored node; the other page is freed |
| `BTree.BTreeMap.GetMax` | src/btreemap/node.rs:108-129 | The last entry below a node |
| `BTree.BTreeMap.GetMin` | src/btreemap/node.rs:132-149 | The first entry below a node |
| `BTree.BTreeMap.PopLast` | src/btreemap.rs:762-771 | The last entry of the contents, removed; none iff the map is empty |
| `BTree.BTreeMap.PopFirst` | src/btreemap.rs:774-783 | The first entry of the contents, removed; none iff the map is empty |
| `BTree.BTreeMap.FirstKeyValue` | src/btreemap.rs:721-728 | The first entry of the contents, if any |
| `BTree.BTreeMap.LastKeyValue` | src/btreemap.rs:732-739 | The last entry of the contents, if any |
| `BTree.BTreeMap.ClearNew` | src/btreemap.rs:712-717 | Contents are empty and every chunk is free |
| `BTree.BTreeMap.RoomToCount` | src/btreemap.rs:575-578 | In a memory that 64-bit addresses can tell, a map always has room to count one more entry in 64 bits |
| `BTree.BTreeMap.FoundFits` | src/btreemap.rs:495-500 | Every entry a map holds is one that can be stored again |
| `BTree.BTreeMap.Accounted` | src/btreemap.rs:1281-1304 | In every valid state the live chunks are, as a multiset, the pages and overflow chains of the nodes under the root, and the counter is their number; an empty map holds none |
| `Accounting.NoLeaks` | src/btreemap.rs:1281-1304 | Live pages and pages under the root are the same multiset: none is lost, none is shared |
| `Trees.HeightBound` | src/btreemap.rs:670-683 | A tree of height h holds at least 2*6^h - 1 entries |
| `Trees.EditSame` | src/btreemap.rs:786-1151 | Exchanging a block of entries and subtrees for one with the same in-order contents leaves the contents of the node alone |
| `Weaving.Splice` | src/btreemap.rs:786-1151 | A block of entries and subtrees contributes its own in-order string, whatever surrounds it: the law behind split, merge and rotation |
| `Restructure.SplitChildMeaning` | src/btreemap.rs:627-649 | Splitting a full child keeps contents, depth and fill |
| `Restructure.MergeChildrenMeaning` | src/btreemap.rs:898-948 | Merging two minimal children keeps contents, depth and fill |
| `Restructure.RotateFromLeftMeaning` | src/btreemap.rs:977-1030 | Rotation from the left keeps contents, depth and fill |
| `Restructure.RotateFromRightMeaning` | src/btreemap.rs:1032-1085 | Rotation from the right keeps contents, depth and fill |
| `TreeOps.InChild` | src/btreemap.rs:578-603 | Put, drop and find on a key in gap i of a node are the same operation on child i |
| `TreeOps.Replaced` | src/btreemap.rs:828-896 | Either replacement of an inner entry keeps the shape and removes exactly that entry from the contents |
| `SortedSeq.PutMeaning` | src/btreemap.rs:500-549 | Sorted insertion is map update |
| `SortedSeq.DropMeaning` | src/btreemap.rs:750-759 | Sorted removal is removal from the map |
| `SortedSeq.FindMeaning` | src/btreemap.rs:652-661 | Sorted lookup is map lookup |
| `SortedSeq.Undone` | replog/src/lib.rs:130-183 | Taking out what was put in, or putting back what was taken out, restores the very same sequence |
| `PageTrees.EditStored` | src/btreemap.rs:1296-1304 | An edited node is stored when its page, its new subtrees and its old ones are |
| `PageTrees.Ascend` | src/btreemap.rs:552-608 | A stored node stays stored when one subtree is exchanged in place, and ownership adds up |
| `StoredOps.SplitStored` | src/btreemap.rs:627-649 | After a split three saved pages hold the split tree, each address owned once |
| `StoredOps.RotateLeftStored` | src/btreemap.rs:977-1030 | After a rotation from the left three saved pages hold the rotated tree |
| `StoredOps.RotateRightStored` | src/btreemap.rs:1032-1085 | After a rotation from the right three saved pages hold the rotated tree |
| `StoredOps.MergeStored` | src/btreemap.rs:1275-1278 | After a merge one page holds the joined child and the other address is owned by nobody |
| `Headers.HeaderRoundTrip` | src/btreemap.rs:405-491 | Reading back any written header and migrating it gives the header migrated; without the migration it is read as written exactly if the page size is not a derived one |
| `Headers.HeaderPlaces` | src/btreemap.rs:1325-1352 | Magic, layout version, sizes, root and length are at bytes 0, 3, 4, 8, 12 and 20 of the header |
| `Headers.NewVersion` | src/btreemap.rs:326-349 | The page size of a new map fits 32 bits, and is at least the smallest allowed whenever nothing was cut off |
| `Headers.NewPageSize` | src/btreemap.rs:326-349 | 1024 bytes, or three quarters of the largest node rounded down if both types are bounded, exactly unless that needs more than 32 bits |
| `FixedNodes.NodeInPage` | src/btreemap/node/v1.rs:199-209 | Every V1 node fits the largest node size, and a full one takes just that |
| `Headers.PageTooSmall` | src/btreemap.rs:330-346 | Bounds for which the page size of a new map is cut off to less than the smallest page |
| `Headers.MapHeaderIsBytes` | src/btreemap.rs:1325-1352 | Every field of the written header fits its width exactly if root and length fit 64 bits |
| `Nodes.Node.Key` | src/btreemap/node.rs:198-200 | A key loaded on demand is the one the pages held when the node was loaded; the meaning of the node does not change |
| `Nodes.Node.LoadEntry` | src/btreemap/node.rs:181-183 | Loading an entry on demand gives what the node means and leaves that as it is |
| `Nodes.Node.Search` | src/btreemap/node.rs:461-464 | Binary search: the index of the key, or the only gap it fits in |
| `Nodes.Node.SwapValue` | src/btreemap/node.rs:157-160 | One value is replaced; the old one, loaded if need be, is returned |
| `Nodes.Node.SwapEntry` | src/btreemap/node.rs:163-177 | One entry is replaced; the old one, loaded if need be, is returned |
| `Nodes.Node.InsertEntry` | src/btreemap/node.rs:316-319 | The node means the entries with one inserted |
| `Nodes.Node.PushEntry` | src/btreemap/node.rs:340-343 | The node means the entries with one more at the end |
| `Nodes.Node.RemoveEntry` | src/btreemap/node.rs:331-337 | The node means the entries without one, which is returned |
| `Nodes.Node.PopEntry` | src/btreemap/node.rs:346-358 | The node means the entries without the last, which is returned; none exactly if the node is empty |
| `Nodes.Node.Split` | src/btreemap/node.rs:485-502 | Both halves mean the two halves of what the node meant, also for entries that were only references into the old page |
| `Nodes.Node.Append` | src/btreemap/node.rs:410-429 | The joined entries mean left, median, right, whichever node's pages the remaining references point into |
| `Nodes.Node.Merge` | src/btreemap/node.rs:371-398 | The node, saved, holds both nodes and the median in key order; the pages of the other node are free |
| `Nodes.NodeStore.constructor` | src/btreemap/node/v2.rs:94-105 | A store without nodes is sound |
| `Nodes.NodeStore.Load` | src/btreemap.rs:431-438 | The nodes in a reloaded memory are those that were saved |
| `Nodes.NodeStore.LoadNode` | src/btreemap/node.rs:71-88 | Loading gives type, children, keys and values as saved, whichever layout the header names; magic and version are those that are asked for |
| `Nodes.NodeStore.LoadPaged` | src/btreemap/node/v2.rs:108-214 | Loading a V2 node gives type, children, keys and values as saved, for every page size and entry size, with large keys and all values by reference |
| `Nodes.NodeStore.SaveNode` | src/btreemap/node.rs:91-96 | Saving makes exactly this node mean what it meant in memory; every other node keeps its pages and bytes; entries are loaded before their page is overwritten; every cell written is a byte |
| `Nodes.NodeStore.WritePages` | src/btreemap/node/v2.rs:217-298 | The pages of the node hold its encoding, its overflow chain equals the list in memory, and no other live page changes |
| `Nodes.NodeStore.WriteParts` | src/btreemap/node/v2.rs:239-295 | Header, children, keys and values go out in this order, as one string |
| `Nodes.NodeStore.ReadOverflows` | src/btreemap/node/v2.rs:301-319 | The chain on the pages is the list that was saved, and every page of it has the magic that is asked for |
| `Nodes.NodeStore.ReadChildren` | src/btreemap/node/v2.rs:139-162 | The children as saved, however many |
| `Nodes.NodeStore.ReadKeys` | src/btreemap/node/v2.rs:164-196 | Small keys by value and large ones by place, all standing for the saved keys |
| `Nodes.NodeStore.ReadValues` | src/btreemap/node/v2.rs:198-204 | Places that stand for the saved values |
| `Nodes.NodeStore.TakeKey` | src/btreemap/node.rs:219-253 | The key a lazy object stands for |
| `Nodes.NodeStore.TakeValue` | src/btreemap/node.rs:256-279 | The value a lazy object stands for |
| `Nodes.NodeStore.AllocateNode` | src/btreemap.rs:1281-1286 | A node at an address no node has; all others are untouched |
| `Nodes.NodeStore.DeallocateNode` | src/btreemap/node.rs:505-511 | The node and all its pages are gone; all others are untouched |
| `Nodes.NodeStore.Clear` | src/btreemap.rs:712-717 | No node and no live page is left |
| `Layout.KeyPlace` | src/btreemap/node/v2.rs:269-283 | The bytes of key i lie in the node's string where the layout says |
| `Layout.ValuePlace` | src/btreemap/node/v2.rs:285-295 | The bytes of value i lie in the node's string where the layout says |
| `Nodes.NodeStore.LoadFixed` | src/btreemap/node/v1.rs:59-113 | Loading a V1 node gives type, children and references that stand for the saved entries |
| `Nodes.NodeStore.WriteFixed` | src/btreemap/node/v1.rs:115-196 | The page of a V1 node holds it, and no other live page changes; what the source asserts of its shape and order holds; the entries were loaded before the page is overwritten |
| `FixedNodes.SaveSlots` | src/btreemap/node/v1.rs:115-196 | Written field by field, the page holds header, slots and children, and nothing outside the page changes |
| `FixedNodes.LoadSlots` | src/btreemap/node/v1.rs:59-113 | The page gives back type and children, and for every slot a reference that reads as the entry does |
| `FixedNodes.OneNode` | src/btreemap/node/v1.rs:59-196 | A page holds one V1 node only, whatever its unused bytes are |
| `Layout.FieldFits` | src/btreemap/node/v2.rs:246-295 | An integer field is made of bytes exactly if the integer fits its width |
| `Layout.LowestFirst` | src/btreemap/node/v2.rs:246-295 | Digit i of an integer field weighs 256 to the power of i |
| `KeyTypes.NumbersAreKeys` | src/storable.rs:407-427 | Numbers of 64 bits are a key type: their codec of eight bytes is sound |
| `KeyTypes.FractionsAreKeys` | src/storable.rs:13-28 | All fractions are a key type, and with them, as orders, all countable ones: there is a sound codec |
| `NodeIO.NodeWriter.Write` | src/btreemap/node/io.rs:228-282 | What is written behind the node's string appends to it, across as many pages as it takes; no page of another node changes |
| `NodeIO.NodeWriter.AllocateNewPage` | src/btreemap/node/io.rs:301-329 | The chain gets one page, linked from its predecessor; the string changes in the link only |
| `NodeIO.NodeWriter.Finish` | src/btreemap/node/io.rs:218-221 | The chain has exactly the pages the size needs; surplus pages are free; the string changes in the link only |
| `NodeIO.NodeWriter.EndChain` | src/btreemap/node/io.rs:332-361 | The last page that is kept names no further page |
| `NodeIO.ReadNode` | src/btreemap/node/io.rs:21-66 | Reading a range through the pages gives that range of the string |
| `Paging.NumOverflowPages` | src/btreemap/node/io.rs:365-378 | The least number of overflow pages whose room reaches the size |
| `Paging.NextSegment` | src/btreemap/node/io.rs:144-185 | Each segment stays in one page, is not empty, and starts where the byte lives |
| `Paging.HoldsMore` | src/btreemap/node/io.rs:228-282 | A piece written in its place extends the string the pages hold |
| `Allocators.Allocator.constructor` | src/btreemap/allocator.rs:79-102 | A new allocator has no live chunk; nothing in front of it changes |
| `Allocators.Allocator.Load` | src/btreemap/allocator.rs:105-120 | A reloaded allocator has the same live chunks and count |
| `Allocators.Allocator.Clear` | src/btreemap/allocator.rs:93-102 | No chunk is live |
| `Allocators.Allocator.Allocate` | src/btreemap/allocator.rs:160-192 | Returns a chunk that was not live; the live ones keep every byte, also when a new frontier is carved |
| `Allocators.Allocator.Deallocate` | src/btreemap/allocator.rs:195-211 | Exactly this chunk is no longer live; the others keep every byte |
| `Allocators.Allocator.Save` | src/btreemap/allocator.rs:214-226 | The header in memory is up to date |
| `Allocators.Allocator.LiveApart` | src/btreemap/allocator.rs:160-192 | In every reachable state live chunks do not overlap, lie behind the header and within the memory |
| `Allocators.FreeOrTaken` | src/btreemap/allocator.rs:160-211 | A chunk is free exactly if it is on the free list |
| `Allocators.Popped` | src/btreemap/allocator.rs:160-192 | Taking the head keeps the list acyclic, without repeats, disjoint from live chunks and ending at the frontier |
| `Allocators.Carved` | src/btreemap/allocator.rs:176-185 | A new frontier behind the last chunk keeps all that, and overlaps no live chunk |
| `Allocators.Pushed` | src/btreemap/allocator.rs:195-211 | Putting a chunk back keeps all that |
| `Iteration.RangeIter.constructor` | src/btreemap/iter.rs:76-85 | What remains is exactly the entries in range, in order |
| `Iteration.RangeIter.Null` | src/btreemap/iter.rs:65-74 | Nothing remains |
| `Iteration.RangeIter.InitForward` | src/btreemap/iter.rs:87-181 | The forward cursors stand before exactly what remains; nothing is lost by searching down one path |
| `Iteration.RangeIter.InitBackward` | src/btreemap/iter.rs:183-275 | The backward cursors stand behind exactly what remains |
| `Iteration.RangeIter.Next` | src/btreemap/iter.rs:279-355 | Yields the first entry that remains and removes it; none iff nothing remains |
| `Iteration.RangeIter.NextBack` | src/btreemap/iter.rs:359-439 | Yields the last entry that remains and removes it; none iff nothing remains |
| `Iteration.RangeIter.Interleave` | src/btreemap/iter.rs:279-439 | For every interleaving of calls at both ends: front results, the rest and the reversed back results are exactly what there was; call k is empty iff k entries or more have come, and so are all after it |
| `Iteration.RangeIter.Count` | src/btreemap/iter.rs:441-447 | The number of entries that remained |
| `Iteration.RangeIter.Take` | src/btreemap/iter.rs:279-355 | The first n of what remains |
| `Iteration.FromPrevKey` | src/btreemap.rs:1201-1208 | Iterates from the last key below the bound; nothing if there is none |
| `Ranges.FrameOf` | src/btreemap/iter.rs:76-85 | The entries in range are one stretch of the sorted contents |
| `Ranges.InRangeMeans` | src/btreemap/iter.rs:76-85 | An entry is in range exactly if its key keeps to both bounds, an included one with and an excluded one without equality |
| `Spots.GapBeyond` | src/btreemap/iter.rs:87-181 | What lies beyond a bound in gap i is in subtree i or right of it |
| `SetMerges.Merge` | src/btreeset.rs:540-862 | By one merge of two iterators, ascending: the union has the keys in either set, the intersection those in both, the symmetric difference those in exactly one, the difference those of the first that are not in the second; stopping at the first key kept, it is empty iff there is none |
| `SetMerges.PassOne` | src/btreeset.rs:540-862 | One step of any of the merges keeps: passed keys lie below those to come, and the keys kept are those wanted among the passed |
| `SetMerges.IsDisjoint` | src/btreeset.rs:672-687 | True exactly if no key is in both sets |
| `SetMerges.IsSubset` | src/btreeset.rs:717-752 | True exactly if every key of the one is in the other |
| `MemoryManagers.MemoryManager.constructor` | src/memory_manager.rs:270-289 | A new manager has 255 empty memories |
| `MemoryManagers.MemoryManager.Load` | src/memory_manager.rs:291-319 | Sizes, bucket lists in their order and all memory contents come back |
| `MemoryManagers.MemoryManager.SaveHeader` | src/memory_manager.rs:321-332 | The bookkeeping page is up to date; no memory changes |
| `MemoryManagers.MemoryManager.Grow` | src/memory_manager.rs:340-387 | -1 exactly if the buckets do not suffice, and then nothing changes; otherwise the old size, this memory longer and unchanged in its old part, all others unchanged |
| `MemoryManagers.MemoryManager.Write` | src/memory_manager.rs:389-419 | Accepted exactly on a cache hit or within the size; changes this range of this memory and nothing of any other or of the bookkeeping; afterwards the cache has the bucket of the last byte, unless it was hit |
| `MemoryManagers.MemoryManager.WriteEach` | src/memory_manager.rs:503-547 | Bucket by bucket, the whole range is written once and in order |
| `MemoryManagers.MemoryManager.Read` | src/memory_manager.rs:432-473 | Accepted exactly on a cache hit or within the size; returns the range of this memory; afterwards the cache has the bucket of the last byte, unless it was hit |
| `MemoryManagers.MemoryManager.ReadEach` | src/memory_manager.rs:503-547 | Bucket by bucket, the pieces join to the range asked for |
| `MemoryManagers.Run` | src/memory_manager.rs:291-473 | In every run of grows, reads, writes and reloads through any handles with their own caches, each memory behaves as its own flat byte array; sizes, refusals, results and caches are exactly those the source gives |
| `MemoryManagers.PastSizeExact` | src/memory_manager.rs:389-400 | A handle can come to accept an access past the size of its memory if and only if the size is no multiple of the bucket size |
| `MemoryManagers.PastSizeRun` | src/memory_manager.rs:389-400 | Such a run: a memory of one page takes a write, and returns it, behind its end |
| `MemoryManagers.WroteOne` | src/memory_manager.rs:389-419 | A write within one bucket changes the memory that owns it there, and no other memory |
| `Buckets.HitIsReal` | src/memory_manager.rs:612-649 | A cache hit gives the address the bucket list gives and stays in that bucket |
| `Buckets.RealApart` | src/memory_manager.rs:503-567 | Different bytes of a memory live at different addresses |
| `Buckets.BucketListed` | src/memory_manager.rs:291-319 | A bucket is on the list of its owner and on no other |
| `Logs.Log.constructor` | src/log.rs:157-181 | A new log has no entries |
| `Logs.Log.Load` | src/log.rs:206-251 | A log found in its memories has the entries it had; both headers are those that are asked for |
| `Logs.Log.Len` | src/log.rs:340-342 | The number of entries |
| `Logs.Log.Get` | src/log.rs:346-350 | Entry i exactly if there is one |
| `Logs.Log.Append` | src/log.rs:378-412 | Appends and returns the index exactly if each memory has the room for its part or can grow; otherwise no entry changes |
| `Logs.Log.Clear` | src/log.rs:309-311 | No entries are left |
| `Memories.Memory.SafeWrite` | src/lib.rs:174-199 | Writes, growing by zero pages; fails exactly if it has to grow and cannot, and then writes nothing |
| `Memories.GrowsLeast` | src/lib.rs:179-189 | A memory grows by whole pages, no more than the write needs, and not at all if it has the room |
| `ChangeFeed.RunKeeps` | replog/src/lib.rs:82-379 | Over every interleaving of server writes, deletions, clears and compactions with joins, fetches of any size, value lookups, resyncs and snapshot pages of any clients, each client agrees with the server on every key the log does not mention from its cursor on |
| `ChangeFeed.Convergence` | replog/src/lib.rs:292-337 | After any run from an empty server, a caught-up client equals the server map; a client is turned away exactly if its cursor lies before the epoch; one fetch that reaches the end makes it equal |
| `ChangeFeed.ServerMoves` | replog/src/lib.rs:82-207 | Whatever the server does, no client loses that agreement |
| `ChangeFeed.ClientFetches` | replog/src/lib.rs:292-321 | A fetch of any size keeps it, although values are looked up later than the change |
| `ChangeFeed.ClientResolves` | replog/src/lib.rs:323-337 | Looking up present values keeps it |
| `ChangeFeed.CaughtUp` | replog/src/lib.rs:292-321 | At the end of the log, agreement is equality |
| `ChangeFeed.FetchProgress` | replog/src/lib.rs:303-321 | A client is turned away exactly if its cursor is before the epoch; otherwise it gets as many changes as it asked for or as are left, in the order of the log, and moves on by just these |
| `ChangeFeed.ClientPages` | replog/src/lib.rs:343-366 | A client that collects pages while the server writes, and replays from the first page's number, stays in agreement |
| `ChangeFeed.PagesJoin` | replog/src/lib.rs:343-366 | Pages taken in a row without a write in between join to one page |
| `ChangeFeed.PageSize` | replog/src/lib.rs:343-366 | A first page that is not full has every row |
| `ChangeFeed.NumbersStable` | replog/src/lib.rs:281-283 | A sequence number never comes to name another entry |
| `GuidedSync.GuidedClientExact` | docs/src/replog-integration.md:249-267 | For every run of writes, deletions, clearings and compactions between the pages: the documented client ends equal to the server if every change came to a key the pages had still to reach, and exactly if for every other key the last late change put back what the first had found |
| `GuidedSync.GuidedClientCheck` | docs/src/replog-integration.md:249-267 | What a client can check: the log still reaches back to its first page, and every entry since was made while its key lay beyond the pages; then it equals the server |
| `GuidedSync.StaysStuck` | docs/src/replog-integration.md:269-297 | A client that ends wrong on a key stays wrong through every fetch, until the key changes again or the client is turned away |
| `GuidedSync.GuidedClientMisses` | docs/src/replog-integration.md:249-267 | Pages of one row and a change behind them: the documented client goes on to the empty page and is wrong for good |
| `GuidedSync.GuidedClientKeepsCleared` | docs/src/replog-integration.md:249-267 | A clearing behind the pages: the documented client keeps the rows and is not turned away |
| `Replog.CallKeeps` | replog/src/lib.rs:82-207 | Every call keeps: the key index is injective onto the ids that have values, log entries name ids below the counter, one key each |
| `Replog.CallMeans` | replog/src/lib.rs:82-379 | What every call does to the map, the log and the counters: an insertion sets the key and logs its id, new exactly if the key is; a removal of an absent key does nothing; clearing skips a number and compaction none; ids are never given out again |
| `Replog.CallByKey` | replog/src/lib.rs:82-207 | Every call is, seen by key, one change of the abstract feed |
| `Replog.CallById` | replog/src/lib.rs:82-207 | Every call is, seen by entry id, one change of the abstract feed |
| `Replog.RunByKey` | replog/src/lib.rs:82-379 | Every run of calls is a run of changes of the abstract feed |
| `Replog.IdNamesOneKey` | replog/src/lib.rs:130-165 | A logged id names one key for ever, through updates, removals, clears and compactions |
| `Replog.NumberNamesOneEntry` | replog/src/lib.rs:281-379 | A sequence number names one entry as long as the log reaches back to it |
| `ReplogMap.RepLogMap.constructor` | replog/src/lib.rs:66-80 | A new server is empty |
| `ReplogMap.RepLogMap.Load` | replog/src/lib.rs:66-80 | A server found again, from its maps, its log and its counters, is in the state it was in |
| `ReplogMap.RepLogMap.Get` | replog/src/lib.rs:108-113 | The value of the key in the server state |
| `ReplogMap.RepLogMap.GetValueById` | replog/src/lib.rs:259-261 | The value of an entry id |
| `ReplogMap.RepLogMap.ContainsKey` | replog/src/lib.rs:116-118 | Whether the key has an id |
| `ReplogMap.RepLogMap.Insert` | replog/src/lib.rs:82-105 | The three stored parts make the step of the value model; returns the old value |
| `ReplogMap.RepLogMap.TryInsert` | replog/src/lib.rs:130-165 | Succeeds exactly if the changelog has room for an entry with this key or can grow; then the full step, otherwise index, values, counters and log exactly as before |
| `ReplogMap.RepLogMap.Remove` | replog/src/lib.rs:121-128 | The step of the value model; returns the old value |
| `ReplogMap.RepLogMap.TryRemove` | replog/src/lib.rs:167-183 | Succeeds exactly if the key is absent, whatever can grow, or the changelog has room for the entry or can grow; then the full step, otherwise index, values, counters and log exactly as before |
| `ReplogMap.RepLogMap.Clear` | replog/src/lib.rs:198-207 | Empty, with an epoch beyond every number a client can hold |
| `ReplogMap.RepLogMap.Compact` | replog/src/lib.rs:371-379 | The log is empty, the present number stays |
| `ReplogMap.RepLogMap.CurrentSeq` | replog/src/lib.rs:281-283 | Epoch plus length of the log |
| `ReplogMap.RepLogMap.ChangesSince` | replog/src/lib.rs:292-321 | None exactly for numbers before the epoch; within the log, as many entries as asked for or as are left, each the entry of the log at its number, and the number after them; past the end nothing and the present number |
| `ReplogMap.RepLogMap.ChangesWithValuesSince` | replog/src/lib.rs:323-337 | The same entries and number, each entry that sets a key with the present value of that key |
| `ReplogMap.RepLogMap.SnapshotPage` | replog/src/lib.rs:343-366 | The first rows beyond the key, in order, without gaps, and the present number |
| `ReplogMap.RepLogMap.CollectPages` | replog/src/lib.rs:343-366 | Without writes in between, pages of any size make up all rows in key order |
| `ReplogMap.ChangesOfFeeds` | replog/src/lib.rs:292-321 | What the server answers is what the abstract feed answers, by key and by id |
| `ReplogMap.CallsSpoilNoClient` | replog/src/lib.rs:82-379 | No run of calls on the stored server spoils any client of either kind |
| `ReplogMap.CaughtUpClients` | replog/src/lib.rs:292-337 | A client at the present number holds the server's rows, by key or by id |
| `ReplogMap.EveryRunConverges` | replog/src/lib.rs:82-379 | From an empty server, over every interleaving of calls with fetches, lookups, resyncs and pages of clients by key and by id: a client at the present number holds exactly the server's rows |
| `ReplogMap.ChangeRoundTrip` | replog/src/changelog.rs:29-53 | A log entry decodes to itself, and is made of bytes exactly if its id fits 64 bits |
| `MinHeaps.MinHeap.Push` | src/min_heap.rs:75-79 | Heap order is kept, and the multiset of items grows by the item |
| `MinHeaps.MinHeap.BubbleUp` | src/min_heap.rs:137-155 | Moving a hole up ends in heap order with the same multiset |
| `MinHeaps.MinHeap.Pop` | src/min_heap.rs:85-99 | Returns an item no greater than any; the rest is the same multiset without it; none iff empty |
| `MinHeaps.MinHeap.BubbleDown` | src/min_heap.rs:158-204 | Moving a hole down ends in heap order with the same multiset |
| `MinHeaps.RootLeast` | src/min_heap.rs:121-134 | The root of a heap is a least item |
| `MinHeaps.Drain` | src/min_heap.rs:85-99 | Popping everything yields everything in order |
| `MinHeaps.Sort` | src/min_heap.rs:75-99 | Pushing items and popping them all sorts them |
| `BaseVecs.PrefixIsBytes` | src/base_vec.rs:270-286 | The size of every item that fits its bound is written whole, in one, two or four bytes as the bound says; none is cut off |
| `BaseVecs.PrefixLeast` | src/base_vec.rs:352-355 | In front of an item is nothing if its size is fixed, otherwise the least of 1, 2 and 4 bytes that can say every size |
| `BaseVecs.SlotsApart` | src/base_vec.rs:352-355 | Slots do not overlap, and each ends where the next begins |
| `BaseVecs.BaseVec.CellsAreBytes` | src/base_vec.rs:265-267 | Every cell of the memory is a byte exactly if the length fits 64 bits |
| `BaseVecs.BaseVec.constructor` | src/base_vec.rs:107-122 | A new vector has no items |
| `BaseVecs.BaseVec.Load` | src/base_vec.rs:124-155 | A vector found in memory has its items; its header is that of such a vector |
| `BaseVecs.BaseVec.Len` | src/base_vec.rs:180-182 | The number of items |
| `BaseVecs.BaseVec.Get` | src/base_vec.rs:203-209 | Item i exactly if there is one, its size read back from one, two or four bytes |
| `BaseVecs.BaseVec.Set` | src/base_vec.rs:189-198 | Item i is replaced, and no other; its size fits its prefix |
| `BaseVecs.BaseVec.Push` | src/base_vec.rs:214-224 | One item more, its size whole in its prefix, exactly if there is room for size and item or the memory can grow, counting what it grew by for the size; otherwise the items as they were |
| `BaseVecs.BaseVec.Pop` | src/base_vec.rs:229-237 | The last item, removed; none iff empty |
| `Tuples.PairRoundTrip` | src/storable/tuples.rs:20-105 | Every pair of bounded parts comes back whole and takes exactly the bytes its bound names |
| `Tuples.PairToBytes` | src/storable/tuples.rs:66-105 | Unsupported exactly if a part is unbounded; otherwise the parts start at 0 and at the largest size of the first, padded with zeros, and the size fields follow, each as narrow as its largest size allows and, read in base 256 from the highest byte, the length of its part; the whole is as long as the bound names |
| `Tuples.StoreLeast` | src/storable.rs:709-717 | A size takes the least of 1, 2 and 4 bytes that can say it |
| `Tuples.SizeSays` | src/storable/tuples.rs:131-137 | The bytes of a size, read in base 256 from the highest, are the size as far as they can say it |
| `Tuples.TripleRoundTrip` | src/storable/tuples.rs:267-345 | A triple of any mix of parts comes back whole if and only if every size that has to be written fits 32 bits |
| `Tuples.TripleToBytes` | src/storable/tuples.rs:316-345 | A byte of widths, the first above the second, unless both sizes are fixed; then each of the first two behind a field that is as narrow as its length allows and says that length in base 256, highest byte first, unless it is fixed; then the third |
| `Tuples.TripleFits` | src/storable/tuples.rs:293-311 | Every triple keeps to the bound of its type, and one of parts of the largest sizes reaches it |
| `Tuples.PackSizes` | src/storable/tuples.rs:139-155 | Up to four size lengths fit one byte and come back |
| `Tuples.UnpackSizes` | src/storable/tuples.rs:157-182 | The loop over the low bits, turned round, gives the lengths in order |
| `Tuples.SizeKept` | src/storable/tuples.rs:122-137 | A size written in the bytes it needs comes back exactly if it is below 2^32 |
| `Cascade.WouldFollow` | benchmarks/nns/src/nns_vote_cascading.rs:203-250 | With the list for the topic, or the general one if that is empty: yes exactly if more than half of its places voted yes, earlier votes counting before new ones; otherwise no exactly if the list is not empty and half or more voted no; the loop that stops early decides so |
| `Cascade.CountsPlaces` | benchmarks/nns/src/nns_vote_cascading.rs:220-241 | The running count of a vote is the number of places in the list whose neuron has cast it |
| `Cascade.Settled` | benchmarks/nns/src/nns_vote_cascading.rs:203-250 | A decision once reached is not changed by further votes |
| `Cascade.Cascaded` | benchmarks/nns/src/nns_vote_cascading.rs:252-298 | Terminates; every vote but the first was open and is what the places of its list say; the result is complete (no open follower would be moved) and is the least such set of votes |
| `Cascade.FollowersOf` | benchmarks/nns/src/nns_vote_cascading.rs:111-122 | The followers are exactly those whose lists name the neuron |
| `NeuronStores.StableNeuronStore.SetFollowees` | benchmarks/nns/src/nns_vote_cascading.rs:61-99 | The list is replaced, and the follower index stays the exact inverse of all lists |
| `NeuronStores.StableNeuronStore.GetFollowees` | benchmarks/nns/src/nns_vote_cascading.rs:101-109 | The list of the neuron, in its order |
| `NeuronStores.StableNeuronStore.GetFollowers` | benchmarks/nns/src/nns_vote_cascading.rs:111-122 | Exactly the neurons whose list names it, in order |
| `NeuronStores.HeapNeuronStore.SetFollowees` | benchmarks/nns/src/nns_vote_cascading.rs:140-184 | The list is replaced, and the follower index stays the exact inverse of all lists |
| `NeuronStores.HeapNeuronStore.GetFollowees` | benchmarks/nns/src/nns_vote_cascading.rs:186-192 | The list of the neuron, in its order |
| `NeuronStores.HeapNeuronStore.GetFollowers` | benchmarks/nns/src/nns_vote_cascading.rs:194-200 | Exactly the neurons whose list names it, in order |
| `NeuronStores.SameAnswers` | benchmarks/nns/src/nns_vote_cascading.rs:60-201 | After the same calls, whatever they are, both stores give the same and the right answer to every question |

## Left out

- BTree.BTreeMap.Insert: key and value are required to be no longer than 32 bits can say, and to fit the sizes the map was created for where it may hold V1 nodes, which is the documented precondition; what an oversized entry does to its page is not modelled.
- Loading a V1 map without migrating it, which only the source's own checks do.
- The choice between `new` and `load` by magic bytes (`init`), for all structures: a branch on three bytes in front of the modelled constructors.
- ReplogMap.RepLogMap.ChangesSince: the sum of offset and limit is unbounded; in the source it overflows near 2^64.
- ReplogMap.RepLogMap.TryInsert: a new key needs an id below 2^64; what the source does when its counter is used up is not modelled.
- BTree.BTreeMap.NewV1: the largest node has to fit 32 bits; beyond that the source reads V1 nodes with a page size that was cut off.
- MemoryManagers.MemoryManager.Read: the handle is not an object of its own; its cache is passed in and handed back, and runs with many handles are covered by `MemoryManagers.Run`.
- MemoryManagers.MemoryManager.Grow: that new pages read as zero is stated for a memory that was empty when the manager was created, which is what makes it true.
- ReplogMap.RepLogMap.Load: the counters are handed in; the cell that keeps them across upgrades is not modelled.
- MinHeaps.MinHeap.Push: items are ranked by a real number, which covers every total preorder with countably many items; a comparison that is no preorder is not.
- NeuronStores.StableNeuronStore.SetFollowees: the two stable maps are `map` fields, since what a B-tree map does is proved in `BTree`.
- Update of a `BTreeMap` while an iterator is alive: the source's borrow rules exclude it.
- Key-only and value-only iterators, `BTreeSet` as a wrapper of a map, `Vec` as a wrapper of the slot vector: easy members.
- `Cell`, primitive `Storable` implementations, file and system memories, `RestrictedMemory`, readers and writers: foreign calls and easy members.
