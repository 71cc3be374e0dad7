/** A vector of bounded items in slots of equal size. */
module BaseVecs {
  import opened Types
  import opened Layout
  import opened Memories
  import opened Paging

  const LEN_OFFSET: nat := 4
  const DATA_OFFSET: nat := 64

  /** What is known of the encodings of the item type: none is longer than `maxSize`, or all have that size. */
  datatype Bounds = Bounds(maxSize: nat, fixed: bool)

  ghost predicate Fits(b: Bounds, item: Bytes) {
    |item| <= b.maxSize && (b.fixed ==> |item| == b.maxSize) && AllBytes(item)
  }

  /** The bytes in front of an item that hold its size. */
  function PrefixWidth(b: Bounds): nat {
    if b.fixed then 0 else if b.maxSize <= 255 then 1 else if b.maxSize <= 65535 then 2 else 4
  }

  /** Items of varying size have the least width in front of them that can say every size. */
  lemma {:induction false} PrefixLeast(b: Bounds)
    requires b.maxSize <= MAX_LENGTH
    ensures if b.fixed then PrefixWidth(b) == 0 else LeastWidth(PrefixWidth(b), b.maxSize)
  {
    hide Pow256;
    Powers();
  }

  function SizePrefix(b: Bounds, n: nat): (s: Bytes)
    ensures |s| == PrefixWidth(b)
  {
    if b.fixed then [] else ToLE(n, PrefixWidth(b))
  }

  /** The size of an item that fits is written in as many bytes as there are in front of it: none is cut off. */
  lemma {:induction false} PrefixIsBytes(b: Bounds, item: Bytes)
    requires Fits(b, item) && b.maxSize <= MAX_LENGTH
    ensures AllBytes(SizePrefix(b, |item|))
  {
    hide ToLE;
    if !b.fixed {
      FieldFits(|item|, PrefixWidth(b));
      assert Pow256(1) == 256 && Pow256(2) == 0x1_0000 && Pow256(4) == 0x1_0000_0000;
    }
  }

  function Slot(b: Bounds, i: nat): nat {
    DATA_OFFSET + i * (b.maxSize + PrefixWidth(b))
  }

  lemma {:induction false} SlotsApart(b: Bounds, i: nat, j: nat)
    requires i < j
    ensures DATA_OFFSET <= Slot(b, i) && Slot(b, i) + PrefixWidth(b) + b.maxSize <= Slot(b, j)
    ensures Slot(b, 0) == DATA_OFFSET && (j == i + 1 ==> Slot(b, j) == Slot(b, i) + PrefixWidth(b) + b.maxSize)
  {
    var n := b.maxSize + PrefixWidth(b);
    NonzeroTimes(j - i, n);
    NonzeroTimes(i, n);
    assert j * n - i * n == (j - i) * n;
  }

  function VecHeader(magic: Bytes, n: nat, b: Bounds): Bytes {
    magic + [1] + U64(n) + U32(b.maxSize) + [if b.fixed then 1 else 0]
  }

  ghost predicate SlotHeld(m: Bytes, b: Bounds, i: nat, item: Bytes) {
    var at, w := Slot(b, i), PrefixWidth(b);
    at + w + |item| <= |m| && m[at..at + w] == SizePrefix(b, |item|) && m[at + w..at + w + |item|] == item
  }

  ghost predicate ItemsHeld(m: Bytes, b: Bounds, items: seq<Bytes>) {
    forall i :: 0 <= i < |items| ==> Fits(b, items[i]) && SlotHeld(m, b, i, items[i])
  }

  /** Writing within slot `i` leaves the others and what is in front of them alone. */
  lemma {:induction false} OtherSlot(m: Bytes, m': Bytes, b: Bounds, i: nat, off: nat, src: Bytes, j: nat, item: Bytes)
    requires Wrote(m, m', Slot(b, i) + off, src) && off + |src| <= PrefixWidth(b) + b.maxSize
    requires i != j && SlotHeld(m, b, j, item) && Fits(b, item)
    ensures SlotHeld(m', b, j, item)
  {
    hide Slot, SizePrefix, PrefixWidth;
    if i < j {
      SlotsApart(b, i, j);
    } else {
      SlotsApart(b, j, i);
    }
    var at, w := Slot(b, j), PrefixWidth(b);
    ReadOther(m, m', Slot(b, i) + off, src, at, at + w);
    ReadOther(m, m', Slot(b, i) + off, src, at + w, at + w + |item|);
  }

  /** The size of an item is written, unless it is fixed. */
  ghost predicate SizeWritten(m: Bytes, m1: Bytes, b: Bounds, i: nat, item: Bytes) {
    if b.fixed then m1 == m else Wrote(m, m1, Slot(b, i), SizePrefix(b, |item|))
  }

  lemma {:induction false} SizeElsewhere(m: Bytes, m1: Bytes, b: Bounds, i: nat, item: Bytes, j: nat, other: Bytes)
    requires SizeWritten(m, m1, b, i, item) && i != j && SlotHeld(m, b, j, other) && Fits(b, other)
    ensures SlotHeld(m1, b, j, other)
  {
    hide Slot, SizePrefix, SlotHeld;
    if !b.fixed {
      OtherSlot(m, m1, b, i, 0, SizePrefix(b, |item|), j, other);
    }
  }

  /** An item written to slot `i`, its size first. */
  lemma {:induction false} ItemWritten(m: Bytes, m1: Bytes, m2: Bytes, b: Bounds, items: seq<Bytes>, i: nat, item: Bytes)
    requires ItemsHeld(m, b, items) && i <= |items| && Fits(b, item)
    requires SizeWritten(m, m1, b, i, item) && Wrote(m1, m2, Slot(b, i) + PrefixWidth(b), item)
    ensures forall j :: 0 <= j < |items| && j != i ==> SlotHeld(m1, b, j, items[j])
    ensures forall j :: 0 <= j < |items| && j != i ==> SlotHeld(m2, b, j, items[j])
    ensures SlotHeld(m2, b, i, item)
  {
    hide Slot, SizePrefix, PrefixWidth, SlotHeld;
    forall j | 0 <= j < |items| && j != i
      ensures SlotHeld(m1, b, j, items[j]) && SlotHeld(m2, b, j, items[j])
    {
      SizeElsewhere(m, m1, b, i, item, j, items[j]);
      OtherSlot(m1, m2, b, i, PrefixWidth(b), item, j, items[j]);
    }
    OwnSlot(m, m1, m2, b, i, item);
  }

  lemma {:induction false} OwnSlot(m: Bytes, m1: Bytes, m2: Bytes, b: Bounds, i: nat, item: Bytes)
    requires SizeWritten(m, m1, b, i, item) && Wrote(m1, m2, Slot(b, i) + PrefixWidth(b), item)
    ensures SlotHeld(m2, b, i, item)
  {
    hide Slot, ToLE;
    var at, w := Slot(b, i), PrefixWidth(b);
    if !b.fixed {
      ReadBack(m, m1, at, SizePrefix(b, |item|));
      ReadOther(m1, m2, at + w, item, at, at + w);
    }
    ReadBack(m1, m2, at + w, item);
  }

  class BaseVec {
    const memory: Memory
    const bounds: Bounds
    const magic: Bytes

    ghost var items: seq<Bytes>

    ghost predicate Valid()
      reads this, memory
    {
      && |magic| == 3 && DATA_OFFSET <= |memory.bytes| && memory.bytes[..17] == VecHeader(magic, |items|, bounds)
      && ItemsHeld(memory.bytes, bounds, items)
      && BytesBut(memory.bytes, LEN_OFFSET, LEN_OFFSET + 8) && bounds.maxSize <= MAX_LENGTH
    }

    /** Every cell is a byte as long as the length fits its field. */
    lemma CellsAreBytes()
      requires Valid()
      ensures AllBytes(memory.bytes) <==> |items| < ADDRESS_SPACE
    {
      hide U64, U32, ItemsHeld;
      var b, h := memory.bytes, memory.bytes[..17];
      FieldsFit(|items|);
      assert h[4..12] == U64(|items|);
      assert forall i :: 0 <= i < 8 ==> b[4 + i] == h[4 + i] == U64(|items|)[i];
      if |items| < ADDRESS_SPACE {
        forall i | 0 <= i < |b|
          ensures b[i] < 256
        {
          if 4 <= i < 12 {
            assert b[4 + (i - 4)] == U64(|items|)[i - 4];
          }
        }
      }
    }

    constructor (memory: Memory, magic: Bytes, bounds: Bounds)
      requires |magic| == 3 && memory.Valid() && AllBytes(magic) && AllBytes(memory.bytes) && bounds.maxSize <= MAX_LENGTH
      modifies memory
      ensures Valid() && items == [] && this.memory == memory && this.bounds == bounds
    {
      hide VecHeader, Slot, AllBytes;
      this.memory, this.magic, this.bounds, items := memory, magic, bounds, [];
      new;
      WriteHeader();
    }

    /** A vector found in memory: the header is that of a vector of such items. */
    constructor Load(memory: Memory, magic: Bytes, bounds: Bounds, ghost was: BaseVec)
      requires was.Valid() && was.memory == memory && was.magic == magic && was.bounds == bounds
      ensures Valid() && items == was.items && this.memory == memory && this.bounds == bounds
    {
      hide U64, U32, ItemsHeld, BytesBut;
      was.HeaderFields();
      var h := memory.Read(0, 17);
      assert h[..3] == magic && h[3] == 1 && FromLE(h[12..16]) == bounds.maxSize && (h[16] == 1 <==> bounds.fixed);
      this.memory, this.magic, this.bounds, items := memory, magic, bounds, was.items;
    }

    lemma HeaderFields()
      requires Valid()
      ensures var h := memory.bytes[0..17];
              h[..3] == magic && h[3] == 1 && FromLE(h[12..16]) == bounds.maxSize && (h[16] == 1 <==> bounds.fixed)
    {
      hide U64, U32, ItemsHeld;
      var h := memory.bytes[0..17];
      assert h == VecHeader(magic, |items|, bounds);
      assert h[12..16] == U32(bounds.maxSize);
    }

    method WriteHeader()
      requires |magic| == 3 && memory.Valid() && AllBytes(magic) && AllBytes(memory.bytes) && bounds.maxSize <= MAX_LENGTH
      modifies memory
      ensures DATA_OFFSET <= |memory.bytes| && memory.bytes[..17] == VecHeader(magic, 0, bounds)
      ensures BytesBut(memory.bytes, LEN_OFFSET, LEN_OFFSET + 8)
    {
      hide U64, U32, Wrote, GrownTo, AllBytes;
      FieldsFit(0);
      FieldsFit(bounds.maxSize);
      ghost var b := memory.bytes;
      memory.Write(0, magic);
      Appended(b, memory.bytes, [], magic);
      StillBytes(b, memory.bytes, 0, magic);
      b := memory.bytes;
      memory.Write(3, [1]);
      Appended(b, memory.bytes, magic, [1]);
      StillBytes(b, memory.bytes, 3, [1]);
      b := memory.bytes;
      memory.Write(LEN_OFFSET, U64(0));
      Appended(b, memory.bytes, magic + [1], U64(0));
      StillBytes(b, memory.bytes, LEN_OFFSET, U64(0));
      b := memory.bytes;
      memory.Write(12, U32(bounds.maxSize));
      Appended(b, memory.bytes, magic + [1] + U64(0), U32(bounds.maxSize));
      StillBytes(b, memory.bytes, 12, U32(bounds.maxSize));
      b := memory.bytes;
      memory.Write(16, [if bounds.fixed then 1 else 0]);
      Appended(b, memory.bytes, magic + [1] + U64(0) + U32(bounds.maxSize), [if bounds.fixed then 1 else 0]);
      StillBytes(b, memory.bytes, 16, [if bounds.fixed then 1 else 0]);
    }

    /** One field of the header after the other. */
    lemma Appended(b: Bytes, b': Bytes, p: Bytes, src: Bytes)
      requires |p| <= |b| && b[..|p|] == p && Wrote(b, b', |p|, src)
      ensures |p| + |src| <= |b'| && b'[..|p| + |src|] == p + src
    {
    }

    lemma AllFit()
      requires Valid()
      ensures forall i :: 0 <= i < |items| ==> Fits(bounds, items[i])
    {
      hide SlotHeld, VecHeader;
    }

    method Len() returns (n: nat)
      requires Valid()
      ensures n == |items|
    {
      hide U64, U32, ItemsHeld;
      var s := memory.Read(LEN_OFFSET, 8);
      assert s == memory.bytes[..17][4..12] == U64(|items|);
      n := FromLE(s);
    }

    /** Sets the length; `rest` is what is then in the slots. */
    method SetLen(n: nat, ghost rest: seq<Bytes>)
      requires Valid() && |rest| == n && ItemsHeld(memory.bytes, bounds, rest)
      modifies this`items, memory
      ensures Valid() && items == rest
    {
      hide U64, U32, ItemsHeld, BytesBut;
      ghost var b := memory.bytes;
      memory.Write(LEN_OFFSET, U64(n));
      StillBytesBut(b, memory.bytes, LEN_OFFSET, U64(n), LEN_OFFSET, LEN_OFFSET + 8);
      LenWritten(b, memory.bytes, n, rest);
      items := rest;
    }

    lemma LenWritten(b: Bytes, b': Bytes, n: nat, rest: seq<Bytes>)
      requires |magic| == 3 && DATA_OFFSET <= |b| && b[..17] == VecHeader(magic, |items|, bounds) && Wrote(b, b', LEN_OFFSET, U64(n))
      requires ItemsHeld(b, bounds, rest)
      ensures b'[..17] == VecHeader(magic, n, bounds) && ItemsHeld(b', bounds, rest)
    {
      hide U64, U32, SizePrefix, PrefixWidth, Slot;
      var h, h' := b[..17], b'[..17];
      assert h' == h[..4] + U64(n) + h[12..];
      assert h[..4] == magic + [1] && h[12..] == U32(bounds.maxSize) + [if bounds.fixed then 1 else 0];
      forall i | 0 <= i < |rest|
        ensures SlotHeld(b', bounds, i, rest[i])
      {
        assert SlotHeld(b, bounds, i, rest[i]);
        SlotsApart(bounds, i, i + 1);
        var at, w := Slot(bounds, i), PrefixWidth(bounds);
        ReadOther(b, b', LEN_OFFSET, U64(n), at, at + w);
        ReadOther(b, b', LEN_OFFSET, U64(n), at + w, at + w + |rest[i]|);
      }
    }

    /** Item `i`, if there is one. */
    method Get(i: nat) returns (r: Option<Bytes>)
      requires Valid()
      ensures r == if i < |items| then Some(items[i]) else None
    {
      hide VecHeader, Slot, ToLE;
      var n := Len();
      if n <= i {
        return None;
      }
      var s := ReadEntry(i);
      r := Some(s);
    }

    method ReadEntry(i: nat) returns (s: Bytes)
      requires Valid() && i < |items|
      ensures s == items[i]
    {
      hide VecHeader, Slot, ToLE;
      assert SlotHeld(memory.bytes, bounds, i, items[i]);
      var at := Slot(bounds, i);
      if bounds.fixed {
        s := memory.Read(at, bounds.maxSize);
      } else {
        var w := PrefixWidth(bounds);
        var p := memory.Read(at, w);
        s := memory.Read(at + w, FromLE(p));
      }
    }

    /** Replaces item `i`. */
    method Set(i: nat, item: Bytes)
      requires Valid() && i < |items| && Fits(bounds, item)
      modifies this`items, memory
      ensures Valid() && items == old(items)[i := item]
    {
      hide VecHeader, Slot, SizePrefix, PrefixWidth, SlotHeld, BytesBut, AllBytes;
      ghost var b := memory.bytes;
      var at := Slot(bounds, i);
      PrefixIsBytes(bounds, item);
      if !bounds.fixed {
        memory.Write(at, SizePrefix(bounds, |item|));
      }
      ghost var b1 := memory.bytes;
      SizeIsBytes(b, b1, i, item);
      SizeFront(b, b1, i, item);
      memory.Write(at + PrefixWidth(bounds), item);
      ItemWritten(b, b1, memory.bytes, bounds, items, i, item);
      FrontKept(b1, memory.bytes, at + PrefixWidth(bounds), item, i);
      StillBytesBut(b1, memory.bytes, at + PrefixWidth(bounds), item, LEN_OFFSET, LEN_OFFSET + 8);
      items := items[i := item];
    }

    lemma SizeIsBytes(b: Bytes, b1: Bytes, i: nat, item: Bytes)
      requires BytesBut(b, LEN_OFFSET, LEN_OFFSET + 8) && SizeWritten(b, b1, bounds, i, item) && AllBytes(SizePrefix(bounds, |item|))
      ensures BytesBut(b1, LEN_OFFSET, LEN_OFFSET + 8)
    {
      if !bounds.fixed {
        StillBytesBut(b, b1, Slot(bounds, i), SizePrefix(bounds, |item|), LEN_OFFSET, LEN_OFFSET + 8);
      }
    }

    lemma FrontKept(b: Bytes, b': Bytes, at: nat, src: Bytes, i: nat)
      requires Wrote(b, b', at, src) && Slot(bounds, i) <= at && DATA_OFFSET <= |b|
      ensures DATA_OFFSET <= |b'| && b'[..17] == b[..17]
    {
      SlotsApart(bounds, i, i + 1);
      ReadOther(b, b', at, src, 0, 17);
    }

    /** Whether an item of this size can be added: there is room for its size and for itself, or the memory can grow, and
        what it grows by for the size may already do for the item. */
    ghost predicate HasRoom(size: nat, sizeGrows: bool, dataGrows: bool)
      reads this, memory
    {
      var start := Slot(bounds, |items|) + PrefixWidth(bounds);
      && (bounds.fixed || sizeGrows || start <= |memory.bytes|)
      && (dataGrows || start + size <= if bounds.fixed then |memory.bytes| else GrownTo(|memory.bytes|, start))
    }

    /** Adds an item at the end, unless the memory has to grow and cannot; then the items are as they were. */
    method Push(item: Bytes, sizeGrows: bool, dataGrows: bool) returns (ok: bool)
      requires Valid() && Fits(bounds, item)
      modifies this`items, memory
      ensures Valid() && items == (if ok then old(items) + [item] else old(items))
      ensures ok <==> old(HasRoom(|item|, sizeGrows, dataGrows))
    {
      hide VecHeader, Slot, SizePrefix, PrefixWidth, SlotHeld, BytesBut, AllBytes;
      ghost var b, es := memory.bytes, items;
      PrefixIsBytes(bounds, item);
      var n := Len();
      var at := Slot(bounds, n);
      var done := true;
      if !bounds.fixed {
        done := memory.SafeWrite(at, SizePrefix(bounds, |item|), sizeGrows);
      }
      if !done {
        return false;
      }
      ghost var b1 := memory.bytes;
      SizeFront(b, b1, n, item);
      SizeIsBytes(b, b1, n, item);
      done := memory.SafeWrite(at + PrefixWidth(bounds), item, dataGrows);
      if !done {
        PrefixOnly(b, b1, n, item);
        return false;
      }
      ItemWritten(b, b1, memory.bytes, bounds, items, n, item);
      FrontKept(b1, memory.bytes, at + PrefixWidth(bounds), item, n);
      StillBytesBut(b1, memory.bytes, at + PrefixWidth(bounds), item, LEN_OFFSET, LEN_OFFSET + 8);
      SetLen(n + 1, es + [item]);
      ok := true;
    }

    lemma SizeFront(b: Bytes, b1: Bytes, n: nat, item: Bytes)
      requires SizeWritten(b, b1, bounds, n, item) && DATA_OFFSET <= |b|
      ensures DATA_OFFSET <= |b1| && b1[..17] == b[..17]
    {
      hide Slot, SizePrefix;
      if !bounds.fixed {
        FrontKept(b, b1, Slot(bounds, n), SizePrefix(bounds, |item|), n);
      }
    }

    lemma PrefixOnly(b: Bytes, b1: Bytes, n: nat, item: Bytes)
      requires ItemsHeld(b, bounds, items) && n == |items| && SizeWritten(b, b1, bounds, n, item)
      ensures ItemsHeld(b1, bounds, items)
    {
      hide Slot, SizePrefix, PrefixWidth, SlotHeld;
      forall j | 0 <= j < |items|
        ensures SlotHeld(b1, bounds, j, items[j])
      {
        SizeElsewhere(b, b1, bounds, n, item, j, items[j]);
      }
    }

    /** Takes the last item off. */
    method Pop() returns (r: Option<Bytes>)
      requires Valid()
      modifies this`items, memory
      ensures Valid()
      ensures r == if old(items) == [] then None else Some(old(items)[|old(items)| - 1])
      ensures items == if old(items) == [] then [] else old(items)[..|old(items)| - 1]
    {
      hide VecHeader, Slot, SlotHeld;
      var n := Len();
      if n == 0 {
        return None;
      }
      var s := ReadEntry(n - 1);
      SetLen(n - 1, items[..n - 1]);
      r := Some(s);
    }
  }
}
