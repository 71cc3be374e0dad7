/** The replicated map: two B-tree maps, a log and two counters, kept in step. */
module ReplogMap {
  import opened Types
  import opened SortedSeq
  import opened Layout
  import opened KeyTypes
  import opened Memories
  import opened Trees
  import opened PageTrees
  import opened Nodes
  import opened Headers
  import opened BTree
  import opened Ranges
  import opened Iteration
  import opened Logs
  import opened ChangeFeed
  import opened Replog

  // ---- Changelog entries as bytes

  function ChangeBytes(c: Codec, e: ChangeEntry): (s: Bytes)
    ensures 9 <= |s|
  {
    [if e.kind.Upsert? then 0 else 1] + U64(e.id) + c.enc(e.key)
  }

  function ParseChange(c: Codec, s: Bytes): ChangeEntry
    requires 9 <= |s|
  {
    ChangeEntry(if s[0] == 0 then Upsert else Removal, FromLE(s[1..9]), c.dec(s[9..]))
  }

  lemma {:induction false} ChangeRoundTrip(c: Codec, e: ChangeEntry)
    requires Layout.Sound(c) && c.has(e.key)
    ensures ParseChange(c, ChangeBytes(c, e)) == e
    ensures AllBytes(ChangeBytes(c, e)) <==> e.id < ADDRESS_SPACE
  {
    hide U64;
    var s := ChangeBytes(c, e);
    assert s[1..9] == U64(e.id) && s[9..] == c.enc(e.key);
    FieldsFit(e.id);
    var kind := [if e.kind.Upsert? then 0 else 1];
    BytesJoin(kind, U64(e.id));
    BytesJoin(kind + U64(e.id), c.enc(e.key));
  }

  lemma {:induction false} ChangeSize(c: Codec, e: ChangeEntry)
    ensures |ChangeBytes(c, e)| == 9 + |c.enc(e.key)|
  {
  }

  // ---- The parts hold the state

  ghost predicate IndexHeld(c: seq<Entry>, m: map<Key, nat>) {
    forall k :: Find(c, k) == if k in m then Some(U64(m[k])) else None
  }

  ghost predicate ValueHeld(c: seq<Entry>, m: map<nat, Value>, i: nat) {
    Find(c, i as real) == if i in m then Some(m[i]) else None
  }

  ghost predicate ValuesHeld(c: seq<Entry>, m: map<nat, Value>) {
    forall i: nat :: ValueHeld(c, m, i)
  }

  ghost predicate LogHeld(c: Codec, es: seq<Bytes>, log: seq<ChangeEntry>) {
    |es| == |log| && forall n :: 0 <= n < |log| ==> es[n] == ChangeBytes(c, log[n]) && c.has(log[n].key)
  }

  lemma {:induction false} IndexPut(c: seq<Entry>, m: map<Key, nat>, k: Key, i: nat)
    requires Sorted(c) && IndexHeld(c, m)
    ensures IndexHeld(Put(c, k, U64(i)), m[k := i])
  {
    hide U64, Put;
    forall j
      ensures Find(Put(c, k, U64(i)), j) == if j in m[k := i] then Some(U64(m[k := i][j])) else None
    {
      FindAfterPut(c, k, U64(i), j);
    }
  }

  lemma {:induction false} IndexDrop(c: seq<Entry>, m: map<Key, nat>, k: Key)
    requires Sorted(c) && IndexHeld(c, m)
    ensures IndexHeld(Drop(c, k), m - {k})
  {
    hide U64, Drop;
    forall j
      ensures Find(Drop(c, k), j) == if j in m - {k} then Some(U64((m - {k})[j])) else None
    {
      FindAfterDrop(c, k, j);
    }
  }

  lemma {:induction false} ValuesPut(c: seq<Entry>, m: map<nat, Value>, i: nat, v: Value)
    requires Sorted(c) && ValuesHeld(c, m)
    ensures ValuesHeld(Put(c, i as real, v), m[i := v])
  {
    hide Put;
    var c', m' := Put(c, i as real, v), m[i := v];
    forall j: nat
      ensures ValueHeld(c', m', j)
    {
      assert ValueHeld(c, m, j);
      FindAfterPut(c, i as real, v, j as real);
    }
  }

  lemma {:induction false} ValuesDrop(c: seq<Entry>, m: map<nat, Value>, i: nat)
    requires Sorted(c) && ValuesHeld(c, m)
    ensures ValuesHeld(Drop(c, i as real), m - {i})
  {
    hide Drop;
    var c', m' := Drop(c, i as real), m - {i};
    forall j: nat
      ensures ValueHeld(c', m', j)
    {
      assert ValueHeld(c, m, j);
      FindAfterDrop(c, i as real, j as real);
    }
  }

  lemma {:induction false} NothingHeld(c: Codec)
    ensures IndexHeld([], map[]) && ValuesHeld([], map[]) && LogHeld(c, [], [])
  {
  }

  lemma {:induction false} LogMore(c: Codec, es: seq<Bytes>, log: seq<ChangeEntry>, e: ChangeEntry)
    requires LogHeld(c, es, log) && c.has(e.key)
    ensures LogHeld(c, es + [ChangeBytes(c, e)], log + [e])
  {
    hide ChangeBytes;
  }

  datatype TryResult = Ok(old_: Option<Value>) | ChangelogFull

  class RepLogMap {
    const codec: Codec
    const keyIndex: BTreeMap
    const valueStore: BTreeMap
    const changelog: Log
    var nextEntryId: nat
    var epochStart: nat

    ghost var server: Server

    ghost function LogRepr(): set<object> {
      {changelog, changelog.index, changelog.data}
    }

    /** The parts share no object. */
    ghost predicate Separate() {
      && keyIndex.Repr() !! valueStore.Repr() && keyIndex.Repr() !! LogRepr() && valueStore.Repr() !! LogRepr()
      && this !in keyIndex.Repr() && this !in valueStore.Repr() && this !in LogRepr()
    }

    ghost function Repr(): set<object> {
      {this} + keyIndex.Repr() + valueStore.Repr() + LogRepr()
    }

    ghost predicate PartsValid()
      reads Repr()
    {
      && Separate() && Layout.Sound(codec) && keyIndex.Valid() && valueStore.Valid() && changelog.Valid()
      && keyIndex.store.codec == codec && codec.slots.None? && valueStore.store.codec.slots.None?
      && HasNumbers(valueStore.store.codec)
    }

    /** What can be inserted: a key of the type and a value of bytes, of lengths that 32 bits can say; and if the key is
        new, there has to be a number left for it. */
    ghost predicate CanTake(key: Key, value: Value)
      reads this
    {
      && codec.has(key) && |codec.enc(key)| <= MAX_LENGTH && |value| <= MAX_LENGTH && AllBytes(value)
      && (key in server.index || nextEntryId + 1 < ADDRESS_SPACE)
    }

    ghost predicate Valid()
      reads Repr()
    {
      && PartsValid() && Consistent(server)
      && IndexHeld(keyIndex.Contents(), server.index)
      && ValuesHeld(valueStore.Contents(), server.values)
      && LogHeld(codec, changelog.entries, server.log)
      && nextEntryId == server.nextId && epochStart == server.epoch
    }

    constructor (codec: Codec, keyIndex: BTreeMap, valueStore: BTreeMap, changelog: Log)
      requires keyIndex.Repr() !! valueStore.Repr() && keyIndex.Repr() !! {changelog, changelog.index, changelog.data}
      requires valueStore.Repr() !! {changelog, changelog.index, changelog.data} && Layout.Sound(codec)
      requires keyIndex.Valid() && valueStore.Valid() && changelog.Valid()
      requires keyIndex.Contents() == [] && valueStore.Contents() == [] && changelog.entries == []
      requires keyIndex.store.codec == codec && codec.slots.None?
      requires valueStore.store.codec.slots.None? && HasNumbers(valueStore.store.codec)
      ensures Valid() && server == EMPTY
      ensures this.keyIndex == keyIndex && this.valueStore == valueStore && this.changelog == changelog
    {
      hide BTreeMap.Contents, Log.Valid, IndexHeld, ValuesHeld, LogHeld, HasNumbers, Layout.Sound;
      hide NodeStore.Valid, NodeStore.Front, MapHeader;
      this.codec, this.keyIndex, this.valueStore, this.changelog := codec, keyIndex, valueStore, changelog;
      nextEntryId, epochStart, server := 0, 0, EMPTY;
      NothingHeld(codec);
    }

    /** A server found again: its maps, its log and its counters hold what they held. */
    constructor Load(codec: Codec, keyIndex: BTreeMap, valueStore: BTreeMap, changelog: Log, nextEntryId: nat, epochStart: nat, ghost was: RepLogMap)
      requires was.Valid() && codec == was.codec && nextEntryId == was.nextEntryId && epochStart == was.epochStart
      requires keyIndex.Repr() !! valueStore.Repr() && keyIndex.Repr() !! {changelog, changelog.index, changelog.data}
      requires valueStore.Repr() !! {changelog, changelog.index, changelog.data}
      requires keyIndex.Valid() && keyIndex.Contents() == was.keyIndex.Contents() && keyIndex.store.codec == codec
      requires valueStore.Valid() && valueStore.Contents() == was.valueStore.Contents() && valueStore.store.codec == was.valueStore.store.codec
      requires changelog.Valid() && changelog.entries == was.changelog.entries
      ensures Valid() && server == was.server
      ensures this.keyIndex == keyIndex && this.valueStore == valueStore && this.changelog == changelog
    {
      hide BTreeMap.Contents, Log.Valid, IndexHeld, ValuesHeld, LogHeld, HasNumbers, Layout.Sound, Consistent;
      hide NodeStore.Valid, NodeStore.Front, MapHeader;
      this.codec, this.keyIndex, this.valueStore, this.changelog := codec, keyIndex, valueStore, changelog;
      this.nextEntryId, this.epochStart, server := nextEntryId, epochStart, was.server;
    }

    /** The value of a key. */
    method Get(key: Key) returns (r: Option<Value>)
      requires Valid()
      ensures r == if key in Replog.Contents(server) then Some(Replog.Contents(server)[key]) else None
    {
      hide BTreeMap.Valid, BTreeMap.Contents, Log.Valid, Find, U64, LogHeld, HasKey, Logged;
      var id := keyIndex.Get(key);
      if id.None? {
        return None;
      }
      r := GetValueById(FromLE(id.value));
    }

    method GetValueById(id: nat) returns (r: Option<Value>)
      requires Valid()
      ensures r == if id in server.values then Some(server.values[id]) else None
    {
      hide BTreeMap.Valid, BTreeMap.Contents, Log.Valid, Find, U64, LogHeld, Consistent;
      assert ValueHeld(valueStore.Contents(), server.values, id);
      r := valueStore.Get(id as real);
    }

    method ContainsKey(key: Key) returns (b: bool)
      requires Valid()
      ensures b <==> key in server.index
    {
      hide BTreeMap.Valid, BTreeMap.Contents, Log.Valid, Find, U64, LogHeld, Consistent;
      b := keyIndex.ContainsKey(key);
    }

    // ---- Writing

    /** Appends to the changelog; the other parts are not touched. */
    method Record(e: ChangeEntry, dataGrows: bool, indexGrows: bool, ghost log: seq<ChangeEntry>) returns (ok: bool)
      requires PartsValid() && LogHeld(codec, changelog.entries, log) && codec.has(e.key) && e.id < ADDRESS_SPACE
      modifies LogRepr()
      ensures PartsValid() && keyIndex.Contents() == old(keyIndex.Contents()) && valueStore.Contents() == old(valueStore.Contents())
      ensures if ok then LogHeld(codec, changelog.entries, log + [e]) else changelog.entries == old(changelog.entries)
      ensures ok <==> old(changelog.HasRoom(9 + |codec.enc(e.key)|, dataGrows, indexGrows))
    {
      hide NodeStore.Valid, NodeStore.Front, MapHeader, Stored, Owned, Shape, Sorted, Flatten, LogHeld, ChangeBytes, HasNumbers, Layout.Sound;
      ChangeRoundTrip(codec, e);
      ChangeSize(codec, e);
      LogMore(codec, changelog.entries, log, e);
      var r := changelog.Append(ChangeBytes(codec, e), dataGrows, indexGrows);
      ok := r.Some?;
    }

    /** Sets the value of an id. */
    method SetValue(id: nat, value: Value, ghost m: map<nat, Value>) returns (old_: Option<Value>)
      requires PartsValid() && ValuesHeld(valueStore.Contents(), m) && EntryFits(valueStore.store.codec, Entry(id as real, value))
      modifies valueStore.Repr()
      ensures PartsValid() && keyIndex.Contents() == old(keyIndex.Contents()) && changelog.entries == old(changelog.entries)
      ensures ValuesHeld(valueStore.Contents(), m[id := value])
      ensures valueStore.Contents() == Put(old(valueStore.Contents()), id as real, value)
      ensures old_ == (if id in m then Some(m[id]) else None) && old_ == Find(old(valueStore.Contents()), id as real)
    {
      hide NodeStore.Valid, NodeStore.Front, MapHeader, Stored, Owned, Shape, Sorted, Flatten, Find, Put, ValuesHeld, HasNumbers, Layout.Sound, EntryFits;
      valueStore.ContentsSorted();
      ValuesAt(valueStore.Contents(), m, id);
      ValuesPut(valueStore.Contents(), m, id, value);
      old_ := valueStore.Insert(id as real, value);
    }

    method DropValue(id: nat, ghost m: map<nat, Value>) returns (old_: Option<Value>)
      requires PartsValid() && ValuesHeld(valueStore.Contents(), m)
      modifies valueStore.Repr()
      ensures PartsValid() && keyIndex.Contents() == old(keyIndex.Contents()) && changelog.entries == old(changelog.entries)
      ensures ValuesHeld(valueStore.Contents(), m - {id})
      ensures valueStore.Contents() == Drop(old(valueStore.Contents()), id as real)
      ensures old_ == (if id in m then Some(m[id]) else None) && old_ == Find(old(valueStore.Contents()), id as real)
    {
      hide NodeStore.Valid, NodeStore.Front, MapHeader, Stored, Owned, Shape, Sorted, Flatten, Find, Drop, ValuesHeld, HasNumbers, Layout.Sound;
      valueStore.ContentsSorted();
      ValuesAt(valueStore.Contents(), m, id);
      ValuesDrop(valueStore.Contents(), m, id);
      old_ := valueStore.Remove(id as real);
    }

    lemma ValuesAt(c: seq<Entry>, m: map<nat, Value>, id: nat)
      requires ValuesHeld(c, m)
      ensures Find(c, id as real) == if id in m then Some(m[id]) else None
    {
      assert ValueHeld(c, m, id);
    }

    /** Gives a key an id. */
    method SetKey(key: Key, id: nat, ghost m: map<Key, nat>)
      requires PartsValid() && IndexHeld(keyIndex.Contents(), m) && EntryFits(codec, Entry(key, U64(id)))
      modifies keyIndex.Repr()
      ensures PartsValid() && valueStore.Contents() == old(valueStore.Contents()) && changelog.entries == old(changelog.entries)
      ensures IndexHeld(keyIndex.Contents(), m[key := id])
      ensures keyIndex.Contents() == Put(old(keyIndex.Contents()), key, U64(id))
    {
      hide NodeStore.Valid, NodeStore.Front, MapHeader, Stored, Owned, Shape, Sorted, Flatten, Find, Put, IndexHeld, U64, HasNumbers, Layout.Sound, EntryFits;
      keyIndex.ContentsSorted();
      IndexPut(keyIndex.Contents(), m, key, id);
      var _ := keyIndex.Insert(key, U64(id));
    }

    method DropKey(key: Key, ghost m: map<Key, nat>) returns (id: Option<nat>)
      requires PartsValid() && IndexHeld(keyIndex.Contents(), m)
      modifies keyIndex.Repr()
      ensures PartsValid() && valueStore.Contents() == old(valueStore.Contents()) && changelog.entries == old(changelog.entries)
      ensures IndexHeld(keyIndex.Contents(), m - {key})
      ensures keyIndex.Contents() == Drop(old(keyIndex.Contents()), key)
      ensures id == (if key in m then Some(m[key]) else None)
      ensures Find(old(keyIndex.Contents()), key) == if id.Some? then Some(U64(id.value)) else None
    {
      hide NodeStore.Valid, NodeStore.Front, MapHeader, Stored, Owned, Shape, Sorted, Flatten, Find, Drop, IndexHeld, U64, HasNumbers, Layout.Sound;
      keyIndex.ContentsSorted();
      IndexDrop(keyIndex.Contents(), m, key);
      IndexAt(keyIndex.Contents(), m, key);
      var r := keyIndex.Remove(key);
      id := if r.Some? then Some(FromLE(r.value)) else None;
    }

    lemma IndexAt(c: seq<Entry>, m: map<Key, nat>, k: Key)
      requires IndexHeld(c, m)
      ensures Find(c, k) == if k in m then Some(U64(m[k])) else None
      ensures k in m ==> |U64(m[k])| == 8 && FromLE(U64(m[k])) == m[k]
    {
    }

    method FindId(key: Key, ghost m: map<Key, nat>) returns (id: Option<nat>)
      requires PartsValid() && IndexHeld(keyIndex.Contents(), m)
      ensures id == if key in m then Some(m[key]) else None
    {
      hide BTreeMap.Valid, BTreeMap.Contents, Log.Valid, Find, U64, IndexHeld;
      IndexAt(keyIndex.Contents(), m, key);
      var r := keyIndex.Get(key);
      id := if r.Some? then Some(FromLE(r.value)) else None;
    }

    /** Nothing a reader could tell has changed. */
    twostate predicate Restored()
      reads Repr()
    {
      && server == old(server) && nextEntryId == old(nextEntryId) && epochStart == old(epochStart)
      && keyIndex.Contents() == old(keyIndex.Contents()) && valueStore.Contents() == old(valueStore.Contents())
      && changelog.entries == old(changelog.entries)
    }

    /** The value of a key before a call. */
    ghost function Lookup(s: Server, key: Key): Option<Value> {
      if key in Replog.Contents(s) then Some(Replog.Contents(s)[key]) else None
    }

    method Insert(key: Key, value: Value) returns (r: Option<Value>)
      requires Valid() && CanTake(key, value)
      modifies Repr()
      ensures Valid() && server == Inserted(old(server), key, value) && r == Lookup(old(server), key)
    {
      hide Valid;
      var t := TryInsert(key, value, true, true);
      r := t.old_;
    }

    /** Inserts, unless the changelog cannot take the entry; then everything is as it was. */
    method TryInsert(key: Key, value: Value, dataGrows: bool, indexGrows: bool) returns (t: TryResult)
      requires Valid() && CanTake(key, value)
      modifies Repr()
      ensures Valid() && (t.Ok? <==> old(changelog.HasRoom(9 + |codec.enc(key)|, dataGrows, indexGrows)))
      ensures t.Ok? ==> server == Inserted(old(server), key, value) && t.old_ == Lookup(old(server), key)
      ensures t.ChangelogFull? ==> Restored()
    {
      hide NodeStore.Valid, NodeStore.Front, MapHeader, Stored, Owned, Shape, Sorted, Flatten, Find, Put, Drop, IndexHeld, ValuesHeld, LogHeld, U64, Log.Valid, Consistent, HasNumbers, Layout.Sound, EntryFits;
      ghost var s := server;
      t := InsertParts(key, value, dataGrows, indexGrows);
      if t.Ok? {
        server := Inserted(s, key, value);
        CallKeeps(s, Replog.Insert(key, value));
      }
    }

    /** The parts hold what the state says. */
    ghost predicate Holds(s: Server)
      reads Repr()
    {
      && PartsValid()
      && IndexHeld(keyIndex.Contents(), s.index) && ValuesHeld(valueStore.Contents(), s.values)
      && LogHeld(codec, changelog.entries, s.log)
      && nextEntryId == s.nextId && epochStart == s.epoch
    }

    twostate predicate PartsRestored()
      reads Repr()
    {
      && nextEntryId == old(nextEntryId) && epochStart == old(epochStart)
      && keyIndex.Contents() == old(keyIndex.Contents()) && valueStore.Contents() == old(valueStore.Contents())
      && changelog.entries == old(changelog.entries)
    }

    /** What is stored can be stored again, and so can any value under the same number. */
    lemma KnownFits(key: Key, id: nat, value: Value)
      requires Holds(server) && Consistent(server) && key in server.index && server.index[key] == id && |value| <= MAX_LENGTH && AllBytes(value)
      ensures id in server.values && codec.has(key) && id < ADDRESS_SPACE
      ensures EntryFits(codec, Entry(key, U64(id))) && EntryFits(valueStore.store.codec, Entry(id as real, server.values[id]))
      ensures EntryFits(valueStore.store.codec, Entry(id as real, value))
    {
      hide NodeStore.Valid, NodeStore.Front, MapHeader, Stored, Owned, Shape, Sorted, Flatten, Find, IndexHeld, ValuesHeld, LogHeld, U64, Log.Valid, HasKey, Logged, HasNumbers, Layout.Sound;
      IndexAt(keyIndex.Contents(), server.index, key);
      ValuesAt(valueStore.Contents(), server.values, id);
      keyIndex.FoundFits(key);
      valueStore.FoundFits(id as real);
      FieldsFit(id);
    }

    lemma NewFits(key: Key, id: nat, value: Value)
      requires PartsValid() && CanTake(key, value) && id < ADDRESS_SPACE
      ensures codec.has(key) && EntryFits(codec, Entry(key, U64(id))) && EntryFits(valueStore.store.codec, Entry(id as real, value))
    {
      hide NodeStore.Valid, NodeStore.Front, MapHeader, Stored, Owned, Shape, Sorted, Flatten, Log.Valid, U64, Layout.Sound;
      FieldsFit(id);
      assert HasNumber(valueStore.store.codec, id);
    }

    method InsertParts(key: Key, value: Value, dataGrows: bool, indexGrows: bool) returns (t: TryResult)
      requires Holds(server) && Consistent(server) && CanTake(key, value)
      modifies this`nextEntryId, keyIndex.Repr(), valueStore.Repr(), LogRepr()
      ensures t.Ok? <==> old(changelog.HasRoom(9 + |codec.enc(key)|, dataGrows, indexGrows))
      ensures t.Ok? ==> Holds(Inserted(server, key, value)) && t.old_ == Lookup(server, key)
      ensures t.ChangelogFull? ==> Holds(server) && PartsRestored()
    {
      hide NodeStore.Valid, NodeStore.Front, MapHeader, Stored, Owned, Shape, Sorted, Flatten, Find, Put, Drop, IndexHeld, ValuesHeld, LogHeld, U64, Log.Valid, Consistent, HasNumbers, Layout.Sound, EntryFits;
      var known := FindId(key, server.index);
      if known.Some? {
        t := UpdateKnown(known.value, key, value, dataGrows, indexGrows);
      } else {
        t := InsertNew(key, value, dataGrows, indexGrows);
      }
    }

    method UpdateKnown(id: nat, key: Key, value: Value, dataGrows: bool, indexGrows: bool) returns (t: TryResult)
      requires Holds(server) && Consistent(server) && key in server.index && server.index[key] == id && CanTake(key, value)
      modifies valueStore.Repr(), LogRepr()
      ensures t.Ok? <==> old(changelog.HasRoom(9 + |codec.enc(key)|, dataGrows, indexGrows))
      ensures t.Ok? ==> Holds(Inserted(server, key, value)) && t.old_ == Lookup(server, key)
      ensures t.ChangelogFull? ==> Holds(server) && PartsRestored()
    {
      hide NodeStore.Valid, NodeStore.Front, MapHeader, Stored, Owned, Shape, Sorted, Flatten, Find, Put, Drop, IndexHeld, ValuesHeld, LogHeld, U64, Log.Valid, HasKey, Logged, HasNumbers, Layout.Sound, EntryFits;
      ghost var s, c := server, valueStore.Contents();
      valueStore.ContentsSorted();
      KnownFits(key, id, value);
      var old_ := SetValue(id, value, s.values);
      var ok := Record(ChangeEntry(Upsert, id, key), dataGrows, indexGrows, s.log);
      assert s.index[key := id] == s.index;
      if ok {
        t := Ok(old_);
      } else {
        Undone(c, id as real, value, old_.value);
        var _ := SetValue(id, old_.value, s.values[id := value]);
        assert s.values[id := value][id := old_.value] == s.values;
        t := ChangelogFull;
      }
    }

    method InsertNew(key: Key, value: Value, dataGrows: bool, indexGrows: bool) returns (t: TryResult)
      requires Holds(server) && Consistent(server) && key !in server.index && CanTake(key, value)
      modifies this`nextEntryId, keyIndex.Repr(), valueStore.Repr(), LogRepr()
      ensures t.Ok? <==> old(changelog.HasRoom(9 + |codec.enc(key)|, dataGrows, indexGrows))
      ensures t.Ok? ==> Holds(Inserted(server, key, value)) && t.old_ == None
      ensures t.ChangelogFull? ==> Holds(server) && PartsRestored()
    {
      hide NodeStore.Valid, NodeStore.Front, MapHeader, Stored, Owned, Shape, Sorted, Flatten, Find, Put, Drop, IndexHeld, ValuesHeld, LogHeld, U64, Log.Valid, Consistent, HasNumbers, Layout.Sound, EntryFits;
      ghost var s, c, d := server, keyIndex.Contents(), valueStore.Contents();
      keyIndex.ContentsSorted();
      valueStore.ContentsSorted();
      NewId(s);
      IndexAt(c, s.index, key);
      NewFits(key, nextEntryId, value);
      var id := nextEntryId;
      nextEntryId := nextEntryId + 1;
      SetKey(key, id, s.index);
      var _ := SetValue(id, value, s.values);
      var ok := Record(ChangeEntry(Upsert, id, key), dataGrows, indexGrows, s.log);
      if ok {
        t := Ok(None);
      } else {
        Undone(c, key, U64(id), []);
        Undone(d, id as real, value, []);
        TakeBack(key, id, value, s);
        nextEntryId := nextEntryId - 1;
        t := ChangelogFull;
      }
    }

    /** Takes a new key and its value out again. */
    method TakeBack(key: Key, id: nat, ghost value: Value, ghost s: Server)
      requires PartsValid() && key !in s.index && id !in s.values
      requires IndexHeld(keyIndex.Contents(), s.index[key := id]) && ValuesHeld(valueStore.Contents(), s.values[id := value])
      modifies keyIndex.Repr(), valueStore.Repr()
      ensures PartsValid() && changelog.entries == old(changelog.entries)
      ensures IndexHeld(keyIndex.Contents(), s.index) && ValuesHeld(valueStore.Contents(), s.values)
      ensures keyIndex.Contents() == Drop(old(keyIndex.Contents()), key)
      ensures valueStore.Contents() == Drop(old(valueStore.Contents()), id as real)
    {
      hide NodeStore.Valid, NodeStore.Front, MapHeader, Stored, Owned, Shape, Sorted, Flatten, Find, Drop, IndexHeld, ValuesHeld, U64, Log.Valid, HasNumbers, Layout.Sound;
      var _ := DropKey(key, s.index[key := id]);
      var _ := DropValue(id, s.values[id := value]);
      assert s.index[key := id] - {key} == s.index && s.values[id := value] - {id} == s.values;
    }

    method Remove(key: Key) returns (r: Option<Value>)
      requires Valid()
      modifies Repr()
      ensures Valid() && server == Dropped(old(server), key) && r == Lookup(old(server), key)
    {
      hide Valid;
      var t := TryRemove(key, true, true);
      r := t.old_;
    }

    /** Removes, unless the changelog cannot take the entry; then everything is as it was. */
    method TryRemove(key: Key, dataGrows: bool, indexGrows: bool) returns (t: TryResult)
      requires Valid()
      modifies Repr()
      ensures Valid() && (t.Ok? <==> key !in old(server.index) || old(changelog.HasRoom(9 + |codec.enc(key)|, dataGrows, indexGrows)))
      ensures t.Ok? ==> server == Dropped(old(server), key) && t.old_ == Lookup(old(server), key)
      ensures t.ChangelogFull? ==> Restored()
    {
      hide NodeStore.Valid, NodeStore.Front, MapHeader, Stored, Owned, Shape, Sorted, Flatten, Find, Put, Drop, IndexHeld, ValuesHeld, LogHeld, U64, Log.Valid, Consistent, HasNumbers, Layout.Sound, EntryFits;
      ghost var s := server;
      t := RemoveParts(key, dataGrows, indexGrows);
      if t.Ok? {
        server := Dropped(s, key);
        CallKeeps(s, Replog.Remove(key));
      }
    }

    method RemoveParts(key: Key, dataGrows: bool, indexGrows: bool) returns (t: TryResult)
      requires Holds(server) && Consistent(server)
      modifies keyIndex.Repr(), valueStore.Repr(), LogRepr()
      ensures t.Ok? <==> key !in server.index || old(changelog.HasRoom(9 + |codec.enc(key)|, dataGrows, indexGrows))
      ensures t.Ok? ==> Holds(Dropped(server, key)) && t.old_ == Lookup(server, key)
      ensures t.ChangelogFull? ==> Holds(server) && PartsRestored()
    {
      hide NodeStore.Valid, NodeStore.Front, MapHeader, Stored, Owned, Shape, Sorted, Flatten, Find, Put, Drop, IndexHeld, ValuesHeld, LogHeld, U64, Log.Valid, HasKey, Logged, HasNumbers, Layout.Sound, EntryFits;
      ghost var s, c, d := server, keyIndex.Contents(), valueStore.Contents();
      keyIndex.ContentsSorted();
      valueStore.ContentsSorted();
      if key in s.index {
        KnownFits(key, s.index[key], []);
      }
      var known := DropKey(key, s.index);
      if known.None? {
        assert s.index - {key} == s.index;
        DropSorted(c, key);
        return Ok(None);
      }
      var id := known.value;
      var value := DropValue(id, s.values);
      var ok := Record(ChangeEntry(Removal, id, key), dataGrows, indexGrows, s.log);
      if ok {
        t := Ok(value);
      } else {
        Undone(c, key, [], U64(id));
        Undone(d, id as real, [], value.value);
        SetKey(key, id, s.index - {key});
        var _ := SetValue(id, value.value, s.values - {id});
        assert (s.index - {key})[key := id] == s.index && (s.values - {id})[id := value.value] == s.values;
        t := ChangelogFull;
      }
    }

    /** Removes everything; every cursor a client may hold is out of date from now on. */
    method Clear()
      requires Valid()
      modifies Repr()
      ensures Valid() && server == Cleared(old(server))
    {
      hide NodeStore.Valid, NodeStore.Front, MapHeader, Stored, Owned, Shape, Sorted, Flatten, IndexHeld, ValuesHeld, LogHeld, Log.Valid, Consistent;
      ghost var s := server;
      var n := CurrentSeq();
      ClearParts();
      epochStart := n + 1;
      NothingHeld(codec);
      server := Cleared(s);
      CallKeeps(s, ClearAll);
    }

    method ClearParts()
      requires PartsValid()
      modifies keyIndex.Repr(), valueStore.Repr(), LogRepr()
      ensures PartsValid() && keyIndex.Contents() == [] && valueStore.Contents() == [] && changelog.entries == []
    {
      hide NodeStore.Valid, NodeStore.Front, MapHeader, Stored, Owned, Shape, Sorted, Flatten;
      keyIndex.ClearNew();
      valueStore.ClearNew();
      changelog.Clear();
    }

    /** Forgets the changelog: clients behind it have to start anew. */
    method Compact()
      requires Valid()
      modifies Repr()
      ensures Valid() && server == Compacted(old(server))
    {
      hide NodeStore.Valid, NodeStore.Front, MapHeader, Stored, Owned, Shape, Sorted, Flatten, IndexHeld, ValuesHeld, LogHeld, Log.Valid, Consistent;
      ghost var s := server;
      var n := CurrentSeq();
      changelog.Clear();
      epochStart := n;
      NothingHeld(codec);
      server := Compacted(s);
      CallKeeps(s, CompactLog);
    }

    /** The sequence number of the next change. */
    method CurrentSeq() returns (n: nat)
      requires Valid()
      ensures n == server.epoch + |server.log|
    {
      hide BTreeMap.Valid, BTreeMap.Contents, Log.Valid, IndexHeld, ValuesHeld, Consistent;
      var len := changelog.Len();
      n := epochStart + len;
    }

    // ---- Serving clients

    /** Up to `limit` changes from `since` on, and where to go on; none if the log no longer has them. */
    method ChangesSince(since: nat, limit: nat) returns (r: Option<(seq<ChangeEntry>, nat)>)
      requires Valid()
      ensures r == Changes(server, since, limit)
      ensures r.None? <==> since < server.epoch
      ensures server.epoch <= since <= server.epoch + |server.log| ==> var (entries, next) := r.value;
              && next == since + |entries|
              && (var left := server.epoch + |server.log| - since; |entries| == if limit < left then limit else left)
              && forall j :: 0 <= j < |entries| ==> entries[j] == server.log[since - server.epoch + j]
      ensures server.epoch + |server.log| < since ==> r == Some(([], server.epoch + |server.log|))
    {
      hide BTreeMap.Valid, BTreeMap.Contents, Log.Valid, IndexHeld, ValuesHeld, Consistent, ChangeBytes, ParseChange;
      if since < epochStart {
        return None;
      }
      var offset := since - epochStart;
      var len := changelog.Len();
      if len <= offset {
        return Some(([], epochStart + len));
      }
      var end := if offset + limit < len then offset + limit else len;
      var entries := [];
      for i := offset to end
        invariant entries == server.log[offset..i]
      {
        var s := changelog.Get(i);
        ChangeRoundTrip(codec, server.log[i]);
        entries := entries + [ParseChange(codec, s.value)];
      }
      r := Some((entries, since + |entries|));
    }

    /** The same with the present value of every key set. */
    method ChangesWithValuesSince(since: nat, limit: nat) returns (r: Option<(seq<(ChangeEntry, Option<Value>)>, nat)>)
      requires Valid()
      ensures r.None? <==> Changes(server, since, limit).None?
      ensures r.Some? ==> var (es, next) := Changes(server, since, limit).value;
              && r.value.1 == next && |r.value.0| == |es|
              && forall n :: 0 <= n < |es| ==> r.value.0[n] == (es[n], if es[n].kind.Upsert? then Lookup(server, es[n].key) else None)
      ensures r.None? <==> since < server.epoch
      ensures server.epoch <= since <= server.epoch + |server.log| ==> var (entries, next) := r.value;
              && next == since + |entries|
              && (var left := server.epoch + |server.log| - since; |entries| == if limit < left then limit else left)
              && forall j :: 0 <= j < |entries| ==>
                   var e := server.log[since - server.epoch + j];
                   entries[j] == (e, if e.kind.Upsert? then Lookup(server, e.key) else None)
      ensures server.epoch + |server.log| < since ==> r == Some(([], server.epoch + |server.log|))
    {
      hide NodeStore.Valid, NodeStore.Front, MapHeader, Stored, Owned, Shape, Sorted, Flatten, IndexHeld, ValuesHeld, LogHeld, Log.Valid, Consistent, Changes;
      var c := ChangesSince(since, limit);
      if c.None? {
        return None;
      }
      var (es, next) := c.value;
      var out := [];
      for n := 0 to |es|
        invariant |out| == n
        invariant forall m :: 0 <= m < n ==> out[m] == (es[m], if es[m].kind.Upsert? then Lookup(server, es[m].key) else None)
      {
        var v := None;
        if es[n].kind.Upsert? {
          v := Get(es[n].key);
        }
        out := out + [(es[n], v)];
      }
      r := Some((out, next));
    }

    /** Up to `limit` rows with keys beyond `after`, in key order, and the present sequence number. */
    method SnapshotPage(after: Option<Key>, limit: nat) returns (page: seq<(nat, Row)>, current: nat)
      requires Valid()
      ensures IsPage(RowRank(), Rows(server), after, limit, page)
      ensures IsPage(KeyRank(), Replog.Contents(server), after, limit, KeyPage(page))
      ensures current == server.epoch + |server.log|
    {
      hide NodeStore.Valid, NodeStore.Front, MapHeader, Stored, Owned, Shape, Sorted, Flatten, IndexHeld, ValuesHeld, LogHeld, Log.Valid, Consistent;
      hide RangeIter.Valid, InRange, IsPage, Rows, Replog.Contents, KeyPage, Selected;
      var es := SelectKeys(after, limit);
      page := [];
      for i := 0 to |es|
        invariant |page| == i && forall j :: 0 <= j < i ==> IsRow(server, es[j].key, page[j])
      {
        SelectedKey(server, keyIndex.Contents(), after, limit, es, i);
        var id := FromLE(es[i].value);
        var v := GetValueById(id);
        page := page + [(id, Row(es[i].key, v.value))];
      }
      PageMeaning(server, keyIndex.Contents(), after, limit, es, page);
      current := CurrentSeq();
    }

    /** Collects pages until one is not full. With no writes in between they make up all rows, in key order:
        a page that is not full has left nothing out. */
    method CollectPages(limit: nat) returns (rows: seq<(nat, Row)>)
      requires Valid() && 0 < limit
      ensures IsPage(RowRank(), Rows(server), None, |rows| + 1, rows)
      ensures |rows| == |Rows(server)|
    {
      hide NodeStore.Valid, NodeStore.Front, MapHeader, Stored, Owned, Shape, Sorted, Flatten, IndexHeld, ValuesHeld, LogHeld, Log.Valid, Consistent, IsPage, Rows, KeyPage, RowRank;
      rows := [];
      var after := None;
      NoPage(RowRank(), Rows(server));
      PageSize(RowRank(), Rows(server), None, 0, rows);
      while true
        invariant IsPage(RowRank(), Rows(server), None, |rows|, rows) && |rows| <= |Rows(server)|
        invariant after == if rows == [] then None else Some(RowRank()(rows[|rows| - 1].0, rows[|rows| - 1].1))
        decreases |Rows(server)| - |rows|
      {
        var page, _ := SnapshotPage(after, limit);
        PagesJoin(RowRank(), Rows(server), rows, after, limit, page);
        rows := rows + page;
        PageSize(RowRank(), Rows(server), None, if |page| < limit then |rows| + 1 else |rows|, rows);
        if |page| < limit {
          break;
        }
        after := Some(page[|page| - 1].1.key);
        RankOfRow(page[|page| - 1]);
      }
    }

    lemma RankOfRow(p: (nat, Row))
      ensures RowRank()(p.0, p.1) == p.1.key
    {
    }

    /** The first `limit` entries of the key index beyond `after`. */
    method SelectKeys(after: Option<Key>, limit: nat) returns (es: seq<Entry>)
      requires Valid()
      ensures Sorted(keyIndex.Contents()) && Selected(keyIndex.Contents(), after, limit, es)
    {
      hide NodeStore.Valid, NodeStore.Front, MapHeader, Stored, Owned, Shape, Sorted, Flatten, IndexHeld, ValuesHeld, LogHeld, Log.Valid, Consistent, RangeIter.Valid, InRange;
      keyIndex.ContentsSorted();
      var it := new RangeIter(keyIndex, LowerBound(after), Unbounded);
      es := it.Take(limit);
    }
  }

  function LowerBound(after: Option<Key>): Bound {
    if after.None? then Unbounded else Excluded(after.value)
  }

  ghost predicate Selected(c: seq<Entry>, after: Option<Key>, limit: nat, es: seq<Entry>) {
    var r := InRange(c, LowerBound(after), Unbounded);
    es == r[..if limit < |r| then limit else |r|]
  }

  function KeyRank(): (Key, Value) -> Key {
    (k, v) => k
  }

  function RowRank(): (nat, Row) -> Key {
    (i, r: Row) => r.key
  }

  function KeyPage(page: seq<(nat, Row)>): seq<(Key, Value)> {
    seq(|page|, n requires 0 <= n < |page| => (page[n].1.key, page[n].1.value))
  }

  /** The row of a key. */
  ghost predicate IsRow(s: Server, k: Key, p: (nat, Row)) {
    k in s.index && p.0 == s.index[k] && p.0 in s.values && p.1 == Row(k, s.values[p.0])
  }

  /** A selected entry is that of a key with an id. */
  lemma {:induction false} SelectedKey(s: Server, c: seq<Entry>, after: Option<Key>, limit: nat, es: seq<Entry>, i: nat)
    requires Consistent(s) && Sorted(c) && IndexHeld(c, s.index) && Selected(c, after, limit, es) && i < |es|
    ensures es[i].key in s.index && es[i].value == U64(s.index[es[i].key]) && FromLE(es[i].value) == s.index[es[i].key]
    ensures s.index[es[i].key] in s.values && Past(after, es[i].key)
  {
    hide U64, InRange, Find, HasKey, Logged;
    var lo := LowerBound(after);
    InRangeSorted(c, lo, Unbounded);
    var r := InRange(c, lo, Unbounded);
    assert es[i] == r[i] && r[i] in c && Inside(lo, Unbounded, r[i].key);
    var p :| 0 <= p < |c| && c[p] == es[i];
    FindAt(c, p);
  }

  /** A key beyond `after` that was not selected comes after all that were, and the selection is full. */
  lemma {:induction false} NotSelected(s: Server, c: seq<Entry>, after: Option<Key>, limit: nat, es: seq<Entry>, k: Key)
    requires Sorted(c) && IndexHeld(c, s.index) && Selected(c, after, limit, es) && k in s.index && Past(after, k)
    ensures (exists i :: 0 <= i < |es| && es[i].key == k) || (|es| == limit && (es != [] ==> es[|es| - 1].key < k))
  {
    hide U64, InRange, Find;
    var lo := LowerBound(after);
    var p := FoundAt(c, k);
    InRangeAt(c, p, lo, Unbounded);
    InRangeSorted(c, lo, Unbounded);
    var r := InRange(c, lo, Unbounded);
    var q :| 0 <= q < |r| && r[q] == c[p];
    if q < |es| {
      assert es[q].key == k;
    }
  }

  lemma {:induction false} SelectedInOrder(c: seq<Entry>, after: Option<Key>, limit: nat, es: seq<Entry>)
    requires Sorted(c) && Selected(c, after, limit, es)
    ensures Sorted(es) && |es| <= limit
  {
    hide InRange;
    InRangeSorted(c, LowerBound(after), Unbounded);
  }

  lemma {:induction false} PageMeaning(s: Server, c: seq<Entry>, after: Option<Key>, limit: nat, es: seq<Entry>, page: seq<(nat, Row)>)
    requires Consistent(s) && Sorted(c) && IndexHeld(c, s.index) && Selected(c, after, limit, es)
    requires |page| == |es| && forall j :: 0 <= j < |es| ==> IsRow(s, es[j].key, page[j])
    ensures IsPage(RowRank(), Rows(s), after, limit, page)
    ensures IsPage(KeyRank(), Replog.Contents(s), after, limit, KeyPage(page))
  {
    RowPageMeaning(s, c, after, limit, es, page);
    KeyPageMeaning(s, c, after, limit, es, page);
  }

  lemma {:induction false} RowPageMeaning(s: Server, c: seq<Entry>, after: Option<Key>, limit: nat, es: seq<Entry>, page: seq<(nat, Row)>)
    requires Consistent(s) && Sorted(c) && IndexHeld(c, s.index) && Selected(c, after, limit, es)
    requires |page| == |es| && forall j :: 0 <= j < |es| ==> IsRow(s, es[j].key, page[j])
    ensures IsPage(RowRank(), Rows(s), after, limit, page)
  {
    hide IndexHeld, Selected, Indexed, Logged;
    SelectedInOrder(c, after, limit, es);
    var rank, rows := RowRank(), Rows(s);
    forall j | 0 <= j < |page|
      ensures page[j].0 in rows && rows[page[j].0] == page[j].1 && Past(after, rank(page[j].0, page[j].1))
    {
      SelectedKey(s, c, after, limit, es, j);
      TheKey(s, page[j].0, es[j].key);
    }
    forall t | t in rows && Past(after, rank(t, rows[t])) && (t, rows[t]) !in page
      ensures |page| == limit && (page != [] ==> rank(page[|page| - 1].0, page[|page| - 1].1) < rank(t, rows[t]))
    {
      var k := rows[t].key;
      assert k == Replog.KeyOf(s, t) && k in s.index && s.index[k] == t;
      NotSelected(s, c, after, limit, es, k);
      assert forall i :: 0 <= i < |es| && es[i].key == k ==> page[i] == (t, rows[t]);
    }
  }

  lemma {:induction false} KeyPageMeaning(s: Server, c: seq<Entry>, after: Option<Key>, limit: nat, es: seq<Entry>, page: seq<(nat, Row)>)
    requires Consistent(s) && Sorted(c) && IndexHeld(c, s.index) && Selected(c, after, limit, es)
    requires |page| == |es| && forall j :: 0 <= j < |es| ==> IsRow(s, es[j].key, page[j])
    ensures IsPage(KeyRank(), Replog.Contents(s), after, limit, KeyPage(page))
  {
    hide IndexHeld, Selected, Consistent;
    SelectedInOrder(c, after, limit, es);
    var rank, m, kp := KeyRank(), Replog.Contents(s), KeyPage(page);
    forall j | 0 <= j < |kp|
      ensures kp[j].0 in m && m[kp[j].0] == kp[j].1 && Past(after, rank(kp[j].0, kp[j].1))
    {
      SelectedKey(s, c, after, limit, es, j);
    }
    forall t | t in m && Past(after, rank(t, m[t])) && (t, m[t]) !in kp
      ensures |kp| == limit && (kp != [] ==> rank(kp[|kp| - 1].0, kp[|kp| - 1].1) < rank(t, m[t]))
    {
      NotSelected(s, c, after, limit, es, t);
      assert forall i :: 0 <= i < |es| && es[i].key == t ==> kp[i] == (t, m[t]);
    }
  }

  /** What `changes_since` returns, on the state as a value. */
  function Changes(s: Server, since: nat, limit: nat): Option<(seq<ChangeEntry>, nat)> {
    if since < s.epoch then None
    else
      var offset := since - s.epoch;
      if |s.log| <= offset then Some(([], s.epoch + |s.log|))
      else
        var end := if offset + limit < |s.log| then offset + limit else |s.log|;
        Some((s.log[offset..end], since + (end - offset)))
  }

  /** Seen by key or by id, these are the changes of the feed. */
  lemma {:induction false} ChangesOfFeeds(s: Server, since: nat, limit: nat)
    requires Consistent(s)
    ensures var c := Changes(s, since, limit);
            && ChangeFeed.ChangesSince(KeyFeed(s), since, limit) == (if c.None? then None else Some((ByKey(c.value.0), c.value.1)))
            && ChangeFeed.ChangesSince(RowFeed(s), since, limit) == (if c.None? then None else Some((ById(c.value.0), c.value.1)))
  {
    hide Consistent, Rows, Replog.Contents;
    var c := Changes(s, since, limit);
    assert ByKey([]) == [] && ById([]) == [];
    if c.Some? && since - s.epoch < |s.log| {
      var offset := since - s.epoch;
      var end := offset + |c.value.0|;
      assert ByKey(s.log)[offset..end] == ByKey(c.value.0);
      assert ById(s.log)[offset..end] == ById(c.value.0);
    }
  }

  /** Clients that follow by key and clients that follow by entry id, with the server as it is. */
  ghost predicate ClientsGood(s: Server, byKey: map<nat, Client<Key, Value>>, byId: map<nat, Client<nat, Row>>) {
    Consistent(s) && AllGood(KeyRank(), System(KeyFeed(s), byKey)) && AllGood(RowRank(), System(RowFeed(s), byId))
  }

  /** No call on the server, whatever it is, spoils any client. */
  lemma {:induction false} CallsSpoilNoClient(s: Server, cs: seq<Call>, byKey: map<nat, Client<Key, Value>>, byId: map<nat, Client<nat, Row>>)
    requires ClientsGood(s, byKey, byId)
    ensures ClientsGood(AllDone(s, cs), byKey, byId)
    decreases |cs|
  {
    hide Consistent, AllGood, Applied, KeyFeed, RowFeed, KeyChange, RowChange, Done;
    if cs != [] {
      var c := cs[0];
      CallByKey(s, c);
      CallById(s, c);
      StepKeeps(KeyRank(), System(KeyFeed(s), byKey), Write(KeyChange(c)));
      StepKeeps(RowRank(), System(RowFeed(s), byId), Write(RowChange(s, c)));
      CallsSpoilNoClient(Done(s, c), cs[1..], byKey, byId);
    }
  }

  /** A client that has fetched everything holds the server's rows, whether it follows by key or by id. */
  lemma {:induction false} CaughtUpClients(s: Server, byKey: map<nat, Client<Key, Value>>, byId: map<nat, Client<nat, Row>>, i: nat)
    requires ClientsGood(s, byKey, byId)
    ensures i in byKey && byKey[i].Following? && byKey[i].cursor == s.epoch + |s.log| ==> byKey[i].replica == Replog.Contents(s)
    ensures i in byId && byId[i].Following? && byId[i].cursor == s.epoch + |s.log| ==> byId[i].replica == Rows(s)
  {
    hide Consistent, ChangeFeed.Sound, Good;
    if i in byKey && byKey[i].Following? && byKey[i].cursor == s.epoch + |s.log| {
      CaughtUp(KeyRank(), KeyFeed(s), byKey[i]);
    }
    if i in byId && byId[i].Following? && byId[i].cursor == s.epoch + |s.log| {
      CaughtUp(RowRank(), RowFeed(s), byId[i]);
    }
  }

  // ---- Whole runs of a server and its clients

  lemma {:induction false} NoClientsYet()
    ensures ClientsGood(EMPTY, map[], map[])
  {
    assert Replog.Contents(EMPTY) == map[] && Rows(EMPTY) == map[];
  }

  /** What happens: a call on the server, or an event at a client that follows by key or by id. */
  datatype Happening = Called(call: Call) | AtKeyClient(byKey: Event<Key, Value>) | AtIdClient(byId: Event<nat, Row>)

  datatype Served = Served(server: Server, byKey: map<nat, Client<Key, Value>>, byId: map<nat, Client<nat, Row>>)

  ghost predicate CanHappen(w: Served, h: Happening) {
    match h
    case Called(_) => true
    case AtKeyClient(e) => !e.Write? && Enabled(KeyRank(), System(KeyFeed(w.server), w.byKey), e)
    case AtIdClient(e) => !e.Write? && Consistent(w.server) && Enabled(RowRank(), System(RowFeed(w.server), w.byId), e)
  }

  ghost function Happened(w: Served, h: Happening): Served
    requires CanHappen(w, h)
  {
    match h
    case Called(c) => w.(server := Done(w.server, c))
    case AtKeyClient(e) => w.(byKey := Stepped(KeyRank(), System(KeyFeed(w.server), w.byKey), e).clients)
    case AtIdClient(e) => w.(byId := Stepped(RowRank(), System(RowFeed(w.server), w.byId), e).clients)
  }

  ghost predicate ServedRun(w: Served, hs: seq<Happening>, w': Served)
    decreases |hs|
  {
    if hs == [] then w' == w else CanHappen(w, hs[0]) && ServedRun(Happened(w, hs[0]), hs[1..], w')
  }

  lemma {:induction false} HappeningKeeps(w: Served, h: Happening)
    requires ClientsGood(w.server, w.byKey, w.byId) && CanHappen(w, h)
    ensures var w' := Happened(w, h); ClientsGood(w'.server, w'.byKey, w'.byId)
  {
    hide Consistent, AllGood, Applied, KeyFeed, RowFeed, KeyChange, RowChange, Enabled, Done;
    match h
    case Called(c) =>
      CallsSpoilNoClient(w.server, [c], w.byKey, w.byId);
      assert AllDone(w.server, [c]) == Done(w.server, c);
    case AtKeyClient(e) =>
      StepKeeps(KeyRank(), System(KeyFeed(w.server), w.byKey), e);
      OnlyWritesWrite(KeyRank(), System(KeyFeed(w.server), w.byKey), e);
    case AtIdClient(e) =>
      StepKeeps(RowRank(), System(RowFeed(w.server), w.byId), e);
      OnlyWritesWrite(RowRank(), System(RowFeed(w.server), w.byId), e);
  }

  lemma {:induction false} OnlyWritesWrite<T(!new), X>(rank: (T, X) -> Key, s: System<T, X>, e: Event<T, X>)
    requires Enabled(rank, s, e) && !e.Write?
    ensures Stepped(rank, s, e) == System(s.feed, Stepped(rank, s, e).clients)
  {
  }

  lemma {:induction false} ServedRunKeeps(w: Served, hs: seq<Happening>, w': Served)
    requires ClientsGood(w.server, w.byKey, w.byId) && ServedRun(w, hs, w')
    ensures ClientsGood(w'.server, w'.byKey, w'.byId)
    decreases |hs|
  {
    hide ClientsGood, CanHappen;
    if hs != [] {
      HappeningKeeps(w, hs[0]);
      ServedRunKeeps(Happened(w, hs[0]), hs[1..], w');
    }
  }

  /** From an empty server, whatever is called and whatever the clients do, in any order: a client whose cursor is at the
      present number holds exactly what the server holds, by key or by id. */
  lemma {:induction false} EveryRunConverges(hs: seq<Happening>, w: Served, i: nat)
    requires ServedRun(Served(EMPTY, map[], map[]), hs, w)
    ensures Consistent(w.server)
    ensures i in w.byKey && w.byKey[i].Following? && w.byKey[i].cursor == w.server.epoch + |w.server.log| ==>
              w.byKey[i].replica == Replog.Contents(w.server)
    ensures i in w.byId && w.byId[i].Following? && w.byId[i].cursor == w.server.epoch + |w.server.log| ==>
              w.byId[i].replica == Rows(w.server)
  {
    hide ServedRun, AllGood;
    NoClientsYet();
    ServedRunKeeps(Served(EMPTY, map[], map[]), hs, w);
    CaughtUpClients(w.server, w.byKey, w.byId, i);
  }
}
