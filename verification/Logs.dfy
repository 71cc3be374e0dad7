/** The append-only log: entry ends in one memory, entry bytes in another. */
module Logs {
  import opened Types
  import opened Layout
  import opened Memories

  const HEADER_OFFSET: nat := 32

  /** Where the first `i` entries end. */
  ghost function End(es: seq<Bytes>, i: nat): nat
    requires i <= |es|
  {
    if i == 0 then 0 else End(es, i - 1) + |es[i - 1]|
  }

  lemma {:induction false} EndGrows(es: seq<Bytes>, i: nat, j: nat)
    requires i <= j <= |es|
    ensures End(es, i) <= End(es, j)
    decreases j
  {
    if i < j {
      EndGrows(es, i, j - 1);
    }
  }

  lemma {:induction false} EndPrefix(es: seq<Bytes>, fs: seq<Bytes>, i: nat)
    requires i <= |es|
    ensures End(es + fs, i) == End(es, i)
    decreases i
  {
    if 0 < i {
      EndPrefix(es, fs, i - 1);
    }
  }

  function IndexEntry(i: nat): nat {
    HEADER_OFFSET + 8 + 8 * i
  }

  /** Entry `i`: its end in the index memory, its bytes in the data memory. */
  ghost predicate EntryHeld(x: Bytes, d: Bytes, es: seq<Bytes>, i: nat)
    requires i < |es|
  {
    && IndexEntry(i) + 8 <= |x| && x[IndexEntry(i)..IndexEntry(i) + 8] == U64(End(es, i + 1))
    && HEADER_OFFSET + End(es, i + 1) <= |d|
    && d[HEADER_OFFSET + End(es, i)..HEADER_OFFSET + End(es, i + 1)] == es[i]
  }

  ghost predicate Headed(x: Bytes, d: Bytes) {
    && 4 <= |x| && x[..4] == [71, 76, 73, 1]
    && 4 <= |d| && d[..4] == [71, 76, 68, 1]
  }

  ghost predicate Holds(x: Bytes, d: Bytes, es: seq<Bytes>) {
    && Headed(x, d)
    && HEADER_OFFSET + 8 <= |x| && x[HEADER_OFFSET..HEADER_OFFSET + 8] == U64(|es|)
    && forall i :: 0 <= i < |es| ==> EntryHeld(x, d, es, i)
  }

  /** Writing behind the data of all entries touches none of them. */
  lemma {:induction false} DataBehind(x: Bytes, d: Bytes, d': Bytes, es: seq<Bytes>, src: Bytes)
    requires Holds(x, d, es) && Wrote(d, d', HEADER_OFFSET + End(es, |es|), src)
    ensures Holds(x, d', es)
  {
    hide U64;
    ReadOther(d, d', HEADER_OFFSET + End(es, |es|), src, 0, 4);
    forall i | 0 <= i < |es|
      ensures EntryHeld(x, d', es, i)
    {
      assert EntryHeld(x, d, es, i);
      EndGrows(es, i, i + 1);
      EndGrows(es, i + 1, |es|);
      ReadOther(d, d', HEADER_OFFSET + End(es, |es|), src, HEADER_OFFSET + End(es, i), HEADER_OFFSET + End(es, i + 1));
    }
  }

  /** So does writing behind the index. */
  lemma {:induction false} IndexBehind(x: Bytes, x': Bytes, d: Bytes, es: seq<Bytes>, src: Bytes)
    requires Holds(x, d, es) && Wrote(x, x', IndexEntry(|es|), src)
    ensures Holds(x', d, es)
  {
    hide U64;
    ReadOther(x, x', IndexEntry(|es|), src, 0, 4);
    ReadOther(x, x', IndexEntry(|es|), src, HEADER_OFFSET, HEADER_OFFSET + 8);
    forall i | 0 <= i < |es|
      ensures EntryHeld(x', d, es, i)
    {
      assert EntryHeld(x, d, es, i);
      ReadOther(x, x', IndexEntry(|es|), src, IndexEntry(i), IndexEntry(i) + 8);
    }
  }

  /** Setting the count makes the first `n` of the entries written the entries of the log. */
  lemma {:induction false} CountSet(x: Bytes, x': Bytes, d: Bytes, es: seq<Bytes>)
    requires Headed(x, d) && HEADER_OFFSET + 8 <= |x| && (forall i :: 0 <= i < |es| ==> EntryHeld(x, d, es, i))
    requires Wrote(x, x', HEADER_OFFSET, U64(|es|))
    ensures Holds(x', d, es)
  {
    hide U64;
    ReadBack(x, x', HEADER_OFFSET, U64(|es|));
    ReadOther(x, x', HEADER_OFFSET, U64(|es|), 0, 4);
    forall i | 0 <= i < |es|
      ensures EntryHeld(x', d, es, i)
    {
      assert EntryHeld(x, d, es, i);
      ReadOther(x, x', HEADER_OFFSET, U64(|es|), IndexEntry(i), IndexEntry(i) + 8);
    }
  }

  /** An entry written behind the others, not yet counted. */
  lemma {:induction false} Added(x: Bytes, x': Bytes, d: Bytes, d': Bytes, es: seq<Bytes>, item: Bytes)
    requires Holds(x, d, es) && Wrote(d, d', HEADER_OFFSET + End(es, |es|), item)
    requires Wrote(x, x', IndexEntry(|es|), U64(End(es, |es|) + |item|))
    ensures Headed(x', d') && HEADER_OFFSET + 8 <= |x'|
    ensures forall i :: 0 <= i <= |es| ==> EntryHeld(x', d', es + [item], i)
  {
    hide U64;
    DataBehind(x, d, d', es, item);
    IndexBehind(x, x', d', es, U64(End(es, |es|) + |item|));
    ReadBack(d, d', HEADER_OFFSET + End(es, |es|), item);
    ReadBack(x, x', IndexEntry(|es|), U64(End(es, |es|) + |item|));
    EndPrefix(es, [item], |es|);
    forall i | 0 <= i <= |es|
      ensures EntryHeld(x', d', es + [item], i)
    {
      if i < |es| {
        assert EntryHeld(x', d', es, i);
        EndPrefix(es, [item], i);
        EndPrefix(es, [item], i + 1);
      }
    }
  }

  /** The cells of both memories are bytes; those of the index as long as addresses can tell both. */
  ghost predicate Bytewise(x: Bytes, d: Bytes) {
    AllBytes(d) && (|x| <= ADDRESS_SPACE && |d| <= ADDRESS_SPACE ==> AllBytes(x))
  }

  lemma {:induction false} IndexBytes(x: Bytes, x': Bytes, d: Bytes, off: nat, n: nat)
    requires Bytewise(x, d) && Wrote(x, x', off, U64(n)) && (|x'| <= ADDRESS_SPACE && |d| <= ADDRESS_SPACE ==> n < ADDRESS_SPACE)
    ensures Bytewise(x', d)
  {
    hide U64;
    FieldsFit(n);
    if |x'| <= ADDRESS_SPACE && |d| <= ADDRESS_SPACE {
      StillBytes(x, x', off, U64(n));
    }
  }

  lemma {:induction false} DataBytes(x: Bytes, d: Bytes, d': Bytes, off: nat, src: Bytes)
    requires Bytewise(x, d) && Wrote(d, d', off, src) && AllBytes(src)
    ensures Bytewise(x, d')
  {
    StillBytes(d, d', off, src);
  }

  class Log {
    const index: Memory
    const data: Memory

    ghost var entries: seq<Bytes>

    ghost predicate Valid()
      reads this, index, data
    {
      index != data && Holds(index.bytes, data.bytes, entries) && Bytewise(index.bytes, data.bytes)
    }

    /** A new log overwrites what the two memories held. */
    constructor (index: Memory, data: Memory)
      requires index != data && AllBytes(index.bytes) && AllBytes(data.bytes)
      modifies index, data
      ensures Valid() && entries == [] && this.index == index && this.data == data
    {
      hide U64;
      this.index, this.data := index, data;
      entries := [];
      new;
      WriteHeader(index, [71, 76, 73]);
      WriteHeader(data, [71, 76, 68]);
      ghost var x := index.bytes;
      index.Write(HEADER_OFFSET, U64(0));
      ReadBack(x, index.bytes, HEADER_OFFSET, U64(0));
      ReadOther(x, index.bytes, HEADER_OFFSET, U64(0), 0, 4);
      IndexBytes(x, index.bytes, data.bytes, HEADER_OFFSET, 0);
    }

    method WriteHeader(m: Memory, magic: Bytes)
      requires |magic| == 3 && AllBytes(magic) && AllBytes(m.bytes)
      modifies m
      ensures 4 <= |m.bytes| && m.bytes[..4] == magic + [1] && AllBytes(m.bytes)
    {
      ghost var b := m.bytes;
      m.Write(0, magic);
      StillBytes(b, m.bytes, 0, magic);
      b := m.bytes;
      m.Write(3, [1]);
      StillBytes(b, m.bytes, 3, [1]);
      assert m.bytes[..4] == magic + [1];
    }

    /** A log found in the two memories. */
    constructor Load(index: Memory, data: Memory, ghost was: Log)
      requires was.Valid() && was.index == index && was.data == data
      ensures Valid() && entries == was.entries && this.index == index && this.data == data
    {
      hide EntryHeld, U64, Bytewise;
      var d := data.Read(0, 4);
      assert d[..3] == [71, 76, 68] && d[3] == 1;
      var x := index.Read(0, 4);
      assert x[..3] == [71, 76, 73] && x[3] == 1;
      this.index, this.data := index, data;
      entries := was.entries;
    }

    method Len() returns (n: nat)
      requires Valid()
      ensures n == |entries|
    {
      hide U64, EntryHeld;
      var s := index.Read(HEADER_OFFSET, 8);
      n := FromLE(s);
    }

    /** The end of entry `i`. */
    method EndOf(i: nat) returns (n: nat)
      requires Valid() && i < |entries|
      ensures n == End(entries, i + 1)
    {
      hide U64;
      assert EntryHeld(index.bytes, data.bytes, entries, i);
      var s := index.Read(IndexEntry(i), 8);
      n := FromLE(s);
    }

    /** Entry `i`, if there is one. */
    method Get(i: nat) returns (r: Option<Bytes>)
      requires Valid()
      ensures r == if i < |entries| then Some(entries[i]) else None
    {
      hide U64;
      var n := Len();
      if n <= i {
        return None;
      }
      var start := 0;
      if 0 < i {
        start := EndOf(i - 1);
      }
      var end := EndOf(i);
      assert EntryHeld(index.bytes, data.bytes, entries, i);
      EndGrows(entries, i, i + 1);
      var s := data.Read(HEADER_OFFSET + start, end - start);
      r := Some(s);
    }

    /** Whether an entry of this size can be appended: each memory has the room for its part, or can grow. */
    ghost predicate HasRoom(size: nat, dataGrows: bool, indexGrows: bool)
      reads this, index, data
    {
      && (dataGrows || HEADER_OFFSET + End(entries, |entries|) + size <= |data.bytes|)
      && (indexGrows || IndexEntry(|entries|) + 8 <= |index.bytes|)
    }

    /** Appends an entry, unless a memory has to grow and cannot; then nothing that can be read changes. */
    method Append(item: Bytes, dataGrows: bool, indexGrows: bool) returns (r: Option<nat>)
      requires Valid() && AllBytes(item)
      modifies this, index, data
      ensures Valid()
      ensures r.Some? ==> r.value == |old(entries)| && entries == old(entries) + [item]
      ensures r.None? ==> entries == old(entries) && index.bytes == old(index.bytes)
      ensures r.Some? <==> old(HasRoom(|item|, dataGrows, indexGrows))
    {
      hide U64, Holds, Wrote, EntryHeld, Bytewise, AllBytes;
      var idx := Len();
      var offset := 0;
      if idx != 0 {
        offset := EndOf(idx - 1);
      }
      ghost var x, d := index.bytes, data.bytes;
      var ok := data.SafeWrite(HEADER_OFFSET + offset, item, dataGrows);
      if !ok {
        return None;
      }
      DataBehind(x, d, data.bytes, entries, item);
      DataBytes(x, d, data.bytes, HEADER_OFFSET + offset, item);
      ok := index.SafeWrite(IndexEntry(idx), U64(offset + |item|), indexGrows);
      if !ok {
        return None;
      }
      Added(x, index.bytes, d, data.bytes, entries, item);
      Extent(d, data.bytes, HEADER_OFFSET + offset, item);
      Extent(x, index.bytes, IndexEntry(idx), U64(offset + |item|));
      IndexBytes(x, index.bytes, data.bytes, IndexEntry(idx), offset + |item|);
      entries := entries + [item];
      ghost var x' := index.bytes;
      index.Write(HEADER_OFFSET, U64(idx + 1));
      CountSet(x', index.bytes, data.bytes, entries);
      Extent(x', index.bytes, HEADER_OFFSET, U64(idx + 1));
      IndexBytes(x', index.bytes, data.bytes, HEADER_OFFSET, idx + 1);
      r := Some(idx);
    }

    lemma Extent(b: Bytes, b': Bytes, off: nat, src: Bytes)
      requires Wrote(b, b', off, src)
      ensures off + |src| <= |b'| && |b| <= |b'|
    {
    }

    /** Forgets all entries; the headers stay. */
    method Clear()
      requires Valid()
      modifies this, index
      ensures Valid() && entries == []
    {
      hide U64, EntryHeld;
      ghost var x := index.bytes;
      index.Write(HEADER_OFFSET, U64(0));
      entries := [];
      CountSet(x, index.bytes, data.bytes, []);
      IndexBytes(x, index.bytes, data.bytes, HEADER_OFFSET, 0);
    }
  }
}
