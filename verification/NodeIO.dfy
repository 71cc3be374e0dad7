/** Reading and writing nodes through their pages. */
module NodeIO {
  import opened Types
  import opened Layout
  import opened Memories
  import opened Allocators
  import opened Paging

  ghost function SetOf(p: seq<Address>): set<Address> {
    set x | x in p
  }

  ghost predicate Distinct(p: seq<Address>) {
    forall i, j :: 0 <= i < j < |p| ==> p[i] != p[j]
  }

  /** The pages of the node being written and the pages of all other nodes, and nothing else. */
  ghost predicate Shares(live: set<Address>, others: set<Address>, p: seq<Address>) {
    Distinct(p) && live == others + SetOf(p) && others !! SetOf(p)
  }

  /** Allocated pages lie apart. */
  lemma {:induction false} PagesLive(alloc: Allocator, others: set<Address>, p: seq<Address>, ps: PageSize)
    requires alloc.Valid() && alloc.allocationSize == ps && Shares(alloc.Live(), others, p)
    ensures PagesApart(alloc.memory.bytes, p, ps)
    ensures forall i :: 0 <= i < |p| ==> p[i] in alloc.Live() && alloc.Base() < p[i] && Writable(alloc.memory.bytes, U64(p[i]))
    ensures forall i :: 0 <= i < |p| ==> others <= alloc.Live() - {p[i]}
  {
    hide Allocator.Valid, U64, LiveOf;
    alloc.LiveApart();
    assert forall i :: 0 <= i < |p| ==> p[i] in SetOf(p);
    forall i | 0 <= i < |p|
      ensures Writable(alloc.memory.bytes, U64(p[i]))
    {
      FieldsFit(p[i]);
    }
    forall i, j | 0 <= i < |p| && 0 <= j < |p| && i != j
      ensures p[i] + ps <= p[j] || p[j] + ps <= p[i]
    {
      assert p[i] != p[j];
    }
  }

  /** A save in progress depends on the pages of the node only. */
  lemma {:induction false} ProgressFrame(b: Bytes, b': Bytes, front: nat, live: set<Address>, a: Address, ov: seq<Address>, ps: PageSize, s: Bytes)
    requires InProgress(b, a, ov, ps, s) && Untouched(b, b', front, live, ps) && SetOf([a] + ov) <= live
    ensures InProgress(b', a, ov, ps, s)
  {
    hide Patch, HeadBytes;
    var p := [a] + ov;
    assert forall k :: 0 <= k < |p| ==> p[k] in SetOf(p);
    HoldsFrame(b, b', p, ps, s);
    HeadsFrame(b, b', front, live, ov, ps);
  }

  lemma {:induction false} HeadsFrame(b: Bytes, b': Bytes, front: nat, live: set<Address>, ov: seq<Address>, ps: PageSize)
    requires Heads(b, ov) && Untouched(b, b', front, live, ps) && SetOf(ov) <= live
    ensures Heads(b', ov)
  {
    hide HeadBytes;
    forall k | 0 <= k < |ov|
      ensures HeadAt(b', ov, k)
    {
      assert HeadAt(b, ov, k) && ov[k] in SetOf(ov);
      assert b'[ov[k]..ov[k] + PAGE_OVERFLOW_DATA_OFFSET] == b[ov[k]..ov[k] + PAGE_OVERFLOW_DATA_OFFSET];
    }
  }

  lemma {:induction false} SharesMore(live: set<Address>, others: set<Address>, p: seq<Address>, q: Address)
    requires Shares(live, others, p) && q !in live
    ensures Shares(live + {q}, others, p + [q])
  {
    assert forall i :: 0 <= i < |p| ==> p[i] in SetOf(p);
    assert SetOf(p + [q]) == SetOf(p) + {q};
  }

  lemma {:induction false} SharesFewer(live: set<Address>, others: set<Address>, p: seq<Address>)
    requires Shares(live, others, p) && 0 < |p|
    ensures Shares(live - {p[|p| - 1]}, others, p[..|p| - 1])
  {
    var n := |p| - 1;
    assert forall i :: 0 <= i < |p| ==> p[i] in SetOf(p);
    assert SetOf(p) == SetOf(p[..n]) + {p[n]};
    assert p[n] !in SetOf(p[..n]);
  }

  lemma {:induction false} SharesWithout(live: set<Address>, others: set<Address>, p: seq<Address>, k: nat)
    requires Shares(live, others, p) && k < |p|
    ensures p[k] in live && others <= live - {p[k]}
    ensures Shares(live - {p[k]}, others, p[..k] + p[k + 1..])
  {
    var q := p[..k] + p[k + 1..];
    assert forall i :: 0 <= i < |p| ==> p[i] in SetOf(p);
    forall x
      ensures x in SetOf(q) <==> x in SetOf(p) && x != p[k]
    {
      if x in SetOf(p) && x != p[k] {
        var i :| 0 <= i < |p| && p[i] == x;
        assert x == q[if i < k then i else i - 1];
      }
    }
  }

  /** Writes a node as one string, adding overflow pages as it grows. */
  class NodeWriter {
    const allocator: Allocator
    const address: Address
    const ps: PageSize
    var overflows: seq<Address>
    var maxOffset: nat

    ghost const others: set<Address>
    ghost var content: Bytes

    /** The pages hold what has been written, and the chain is in order. */
    ghost predicate Good()
      reads this, allocator, allocator.memory
    {
      && allocator.Valid() && allocator.allocationSize == ps
      && Shares(allocator.Live(), others, [address] + overflows)
      && InProgress(allocator.memory.bytes, address, overflows, ps, content)
    }

    ghost predicate Valid()
      reads this, allocator, allocator.memory
    {
      Good() && maxOffset == |content|
    }

    constructor (allocator: Allocator, address: Address, overflows: seq<Address>, ps: PageSize, ghost others: set<Address>)
      requires allocator.Valid() && allocator.allocationSize == ps && Shares(allocator.Live(), others, [address] + overflows)
      requires Heads(allocator.memory.bytes, overflows)
      ensures Valid() && content == [] && this.allocator == allocator && this.address == address && this.ps == ps
      ensures this.overflows == overflows && this.others == others
    {
      hide Allocator.Valid, Shares, Heads;
      this.allocator, this.address, this.overflows, this.ps, this.others := allocator, address, overflows, ps, others;
      maxOffset, content := 0, [];
    }

    /** A new page with a head that names no page. */
    method FreshPage() returns (q: Address)
      requires allocator.Valid() && allocator.allocationSize == ps
      modifies allocator, allocator.memory
      ensures allocator.Valid() && q !in old(allocator.Live()) && allocator.Live() == old(allocator.Live()) + {q}
      ensures EndPage(allocator.memory.bytes, q)
      ensures Untouched(old(allocator.memory.bytes), allocator.memory.bytes, allocator.headerAddr, old(allocator.Live()), ps)
    {
      hide Allocator.Valid, LiveOf, Untouched, Wrote, U64;
      ghost var live, b0 := allocator.Live(), allocator.memory.bytes;
      FieldsFit(NULL);
      q := allocator.Allocate();
      ghost var b1 := allocator.memory.bytes;
      allocator.WritePage(q, 0, OVERFLOW_MAGIC);
      ghost var b2 := allocator.memory.bytes;
      allocator.WritePage(q, PAGE_OVERFLOW_NEXT_OFFSET, U64(NULL));
      ghost var b3 := allocator.memory.bytes;
      HeadWritten(b1, b2, b3, q);
      assert allocator.Live() - {q} == live;
      UntouchedTwice(b0, b1, b2, allocator.headerAddr, live, ps);
      UntouchedTwice(b0, b2, b3, allocator.headerAddr, live, ps);
    }

    /** Adds a page to the end of the chain. */
    method AllocateNewPage()
      requires Good() && ENTRIES_OFFSET <= |content|
      modifies this`overflows, this`content, allocator, allocator.memory
      ensures Good() && |overflows| == |old(overflows)| + 1 && content == Patch(old(content), overflows)
      ensures Untouched(old(allocator.memory.bytes), allocator.memory.bytes, allocator.headerAddr, others, ps)
    {
      hide Allocator.Valid, LiveOf, Untouched, Wrote, U64, InProgress, PagesApart, EndPage, Shares;
      ghost var live, b0 := allocator.Live(), allocator.memory.bytes;
      SharesOthers(live, others, [address] + overflows);
      var q := FreshPage();
      ghost var b1 := allocator.memory.bytes;
      ProgressFrame(b0, b1, allocator.headerAddr, live, address, overflows, ps, content);
      UntouchedFewer(b0, b1, allocator.headerAddr, live, others, ps);
      SharesMore(live, others, [address] + overflows, q);
      Link(q);
      UntouchedTwice(b0, b1, allocator.memory.bytes, allocator.headerAddr, others, ps);
    }

    lemma SharesOthers(live: set<Address>, others: set<Address>, p: seq<Address>)
      requires Shares(live, others, p)
      ensures others <= live && SetOf(p) <= live
    {
    }

    /** Names the new page in the chain. */
    method Link(q: Address)
      requires allocator.Valid() && allocator.allocationSize == ps
      requires Shares(allocator.Live(), others, [address] + overflows + [q])
      requires InProgress(allocator.memory.bytes, address, overflows, ps, content) && EndPage(allocator.memory.bytes, q)
      requires ENTRIES_OFFSET <= |content|
      modifies this`overflows, this`content, allocator.memory
      ensures Good() && overflows == old(overflows) + [q] && content == Patch(old(content), overflows)
      ensures Untouched(old(allocator.memory.bytes), allocator.memory.bytes, allocator.headerAddr, others, ps)
    {
      hide Allocator.Valid, LiveOf, Untouched, Wrote, U64, InProgress, PagesApart, EndPage, Shares, Writable;
      ghost var b, p := allocator.memory.bytes, [address] + overflows + [q];
      PagesLive(allocator, others, p, ps);
      assert p[0] == address;
      assert p == [address] + (overflows + [q]);
      assert p[|overflows| + 1] == q;
      ProgressPatched(b, address, overflows, ps, content);
      if overflows == [] {
        allocator.WritePage(address, OVERFLOW_ADDRESS_OFFSET, U64(q));
        assert p == [address, q] && overflows + [q] == [q];
        LinkFirst(b, allocator.memory.bytes, address, q, ps, content);
        UntouchedFewer(b, allocator.memory.bytes, allocator.headerAddr, allocator.Live() - {address}, others, ps);
      } else {
        var last := overflows[|overflows| - 1];
        assert p[|overflows|] == last;
        allocator.WritePage(last, PAGE_OVERFLOW_NEXT_OFFSET, U64(q));
        LinkNext(b, allocator.memory.bytes, address, overflows, q, ps, content);
        UntouchedFewer(b, allocator.memory.bytes, allocator.headerAddr, allocator.Live() - {last}, others, ps);
      }
      overflows := overflows + [q];
      content := Patch(content, overflows);
    }

    lemma ProgressPatched(b: Bytes, a: Address, ov: seq<Address>, ps: PageSize, s: Bytes)
      requires InProgress(b, a, ov, ps, s)
      ensures s == Patch(s, ov)
      ensures forall q: Address :: ov != [] ==> Patch(s, ov + [q]) == s
    {
    }

    /** Writes a piece that lies within one page. */
    method WriteSegment(page: Address, offset: nat, piece: Bytes)
      requires Good() && |content| + |piece| <= Extent(ps, |overflows|) && PageOf(ps, |content|) <= |overflows|
      requires page == ([address] + overflows)[PageOf(ps, |content|)] && offset == PlaceOf(ps, |content|) && offset + |piece| <= ps
      requires forall y :: |content| <= y < |content| + |piece| ==> PageOf(ps, y) == PageOf(ps, |content|) && PlaceOf(ps, y) == offset + (y - |content|)
      requires Patch(content + piece, overflows) == content + piece && Writable(allocator.memory.bytes, piece)
      modifies this`content, allocator.memory
      ensures Good() && content == old(content) + piece
      ensures Untouched(old(allocator.memory.bytes), allocator.memory.bytes, allocator.headerAddr, others, ps)
    {
      hide Allocator.Valid, LiveOf, Untouched, Wrote, U64, Shares, Patch, Heads, Writable;
      ghost var b, p := allocator.memory.bytes, [address] + overflows;
      PagesLive(allocator, others, p, ps);
      allocator.WritePage(page, offset, piece);
      HoldsMore(b, allocator.memory.bytes, p, ps, content, piece);
      HeadsKept(b, allocator.memory.bytes, address, overflows, ps, |content|, piece);
      UntouchedFewer(b, allocator.memory.bytes, allocator.headerAddr, allocator.Live() - {page}, others, ps);
      content := content + piece;
    }

    /** Adds pages until the node has room for `size` bytes. */
    method Reserve(size: nat)
      requires Good() && ENTRIES_OFFSET <= |content|
      modifies this`overflows, this`content, allocator, allocator.memory
      ensures Good() && content == Patch(old(content), overflows) && |content| == |old(content)| && size <= Extent(ps, |overflows|)
      ensures Untouched(old(allocator.memory.bytes), allocator.memory.bytes, allocator.headerAddr, others, ps)
    {
      hide Allocator.Valid, LiveOf, U64, Shares, Heads, Holds;
      var needed := NumOverflowPages(size, ps);
      ghost var b := allocator.memory.bytes;
      while |overflows| < needed
        invariant Good() && content == Patch(old(content), overflows) && |content| == |old(content)|
        invariant Untouched(b, allocator.memory.bytes, allocator.headerAddr, others, ps)
      {
        ghost var b1, ov := allocator.memory.bytes, overflows;
        AllocateNewPage();
        UntouchedTwice(b, b1, allocator.memory.bytes, allocator.headerAddr, others, ps);
        PatchTwice(old(content), ov, overflows);
      }
      ExtentGrows(ps, needed, |overflows|);
    }

    /** Writes `src` behind what has been written. */
    method Write(offset: nat, src: Bytes)
      requires Valid() && offset == |content|
      requires offset < ENTRIES_OFFSET ==> offset + |src| < ps && Patch(content + src, overflows) == content + src
      requires Writable(allocator.memory.bytes, src)
      modifies this`overflows, this`content, this`maxOffset, allocator, allocator.memory
      ensures Valid() && content == Patch(old(content), overflows) + src
      ensures offset < ENTRIES_OFFSET ==> overflows == old(overflows) && content == old(content) + src
      ensures Untouched(old(allocator.memory.bytes), allocator.memory.bytes, allocator.headerAddr, others, ps)
    {
      hide Allocator.Valid, LiveOf, Untouched, U64, Shares, Patch, Heads, Holds, Writable;
      var end := offset + |src|;
      maxOffset := if maxOffset < end then end else maxOffset;
      if end < ps {
        if ENTRIES_OFFSET <= offset {
          PatchAppend(content, src, overflows);
        }
        assert ([address] + overflows)[0] == address;
        PageInExtent(ps, end, |overflows|);
        WriteSegment(address, offset, src);
      } else {
        Reserve(end);
        ghost var b, start := allocator.memory.bytes, content;
        var position := 0;
        while position < |src|
          invariant 0 <= position <= |src| && Good() && content == start + src[..position] && |start| == offset
          invariant start == Patch(start, overflows) == Patch(old(content), overflows)
          invariant end <= Extent(ps, |overflows|) && maxOffset == end
          invariant Untouched(old(allocator.memory.bytes), allocator.memory.bytes, allocator.headerAddr, others, ps)
        {
          ghost var b1 := allocator.memory.bytes;
          PieceWritable(old(allocator.memory.bytes), b1, src, allocator.headerAddr);
          var seg := NextSegment(ps, offset + position, |src| - position);
          PageInExtent(ps, offset + position, |overflows|);
          PatchAppend(start, src[..position + seg.length], overflows);
          assert content + src[position..position + seg.length] == start + src[..position + seg.length];
          var page := if seg.page == 0 then address else overflows[seg.page - 1];
          WriteSegment(page, seg.offset, src[position..position + seg.length]);
          UntouchedTwice(old(allocator.memory.bytes), b1, allocator.memory.bytes, allocator.headerAddr, others, ps);
          position := position + seg.length;
        }
        assert src[..position] == src;
      }
    }

    /** What may be written may be written in pieces, and later. */
    lemma PieceWritable(b: Bytes, b': Bytes, src: Bytes, front: nat)
      requires Writable(b, src) && Untouched(b, b', front, others, ps)
      ensures forall lo, hi :: 0 <= lo <= hi <= |src| ==> Writable(b', src[lo..hi])
    {
      WritableLater(b, b', src);
      WritableParts(b', src);
    }

    /** What has been written: a header, the link to the first overflow page, and a body. */
    ghost function Text(h: Bytes, body: Bytes): Bytes
      reads this
    {
      h + U64(FirstPage(overflows)) + body
    }

    /** Writes the header of the node and the link to its first overflow page. */
    method Begin(h: Bytes)
      requires Valid() && content == [] && |h| == OVERFLOW_ADDRESS_OFFSET && AllBytes(h)
      modifies this`overflows, this`content, this`maxOffset, allocator, allocator.memory
      ensures Valid() && content == Text(h, [])
      ensures Untouched(old(allocator.memory.bytes), allocator.memory.bytes, allocator.headerAddr, others, ps)
    {
      hide Allocator.Valid, LiveOf, Untouched, U64, Shares, InProgress;
      ghost var b := allocator.memory.bytes;
      assert [] + h == h;
      Write(0, h);
      ghost var b1 := allocator.memory.bytes;
      LinkWritable();
      Write(|h|, U64(FirstPage(overflows)));
      UntouchedTwice(b, b1, allocator.memory.bytes, allocator.headerAddr, others, ps);
    }

    lemma LinkWritable()
      requires Good()
      ensures Writable(allocator.memory.bytes, U64(FirstPage(overflows)))
    {
      hide Allocator.Valid, LiveOf, U64, InProgress, Shares;
      FieldsFit(NULL);
      PagesLive(allocator, others, [address] + overflows, ps);
      assert overflows != [] ==> ([address] + overflows)[1] == overflows[0];
    }

    /** Writes the next part of the body. */
    method Append(src: Bytes, ghost h: Bytes, ghost body: Bytes)
      requires Valid() && |h| == OVERFLOW_ADDRESS_OFFSET && content == Text(h, body) && Writable(allocator.memory.bytes, src)
      modifies this`overflows, this`content, this`maxOffset, allocator, allocator.memory
      ensures Valid() && content == Text(h, body + src) && maxOffset == old(maxOffset) + |src|
      ensures Untouched(old(allocator.memory.bytes), allocator.memory.bytes, allocator.headerAddr, others, ps)
    {
      hide Allocator.Valid, LiveOf, Untouched, U64, Shares, InProgress, Patch, Writable;
      ghost var ov := overflows;
      Write(maxOffset, src);
      PatchText(h, body, ov, overflows);
      assert Text(h, body) + src == Text(h, body + src);
    }

    lemma PatchText(h: Bytes, body: Bytes, ov: seq<Address>, ov': seq<Address>)
      requires |h| == OVERFLOW_ADDRESS_OFFSET
      ensures Patch(h + U64(FirstPage(ov)) + body, ov') == h + U64(FirstPage(ov')) + body
    {
      hide U64;
      var s := h + U64(FirstPage(ov)) + body;
      assert s[..OVERFLOW_ADDRESS_OFFSET] == h && s[ENTRIES_OFFSET..] == body;
    }

    /** The heads of the first `n` pages of a chain. */
    ghost predicate HeadsUpTo(b: Bytes, ov: seq<Address>, n: nat)
      requires n <= |ov|
    {
      forall k :: 0 <= k < n ==> HeadAt(b, ov, k)
    }

    /** While the chain is cut short: all is in order but the link of the last page. */
    ghost predicate Cutting(ov0: seq<Address>)
      reads this, allocator, allocator.memory
    {
      && allocator.Valid() && allocator.allocationSize == ps
      && |overflows| <= |ov0| && overflows == ov0[..|overflows|]
      && Shares(allocator.Live(), others, [address] + overflows)
      && Holds(allocator.memory.bytes, [address] + overflows, ps, content)
      && HeadsUpTo(allocator.memory.bytes, ov0, |overflows|)
    }

    /** Frees the last page. */
    method DropPage(ghost ov0: seq<Address>)
      requires Cutting(ov0) && 0 < |overflows| && |content| <= Extent(ps, |overflows| - 1)
      modifies this`overflows, allocator, allocator.memory
      ensures Cutting(ov0) && |overflows| == |old(overflows)| - 1
      ensures Untouched(old(allocator.memory.bytes), allocator.memory.bytes, allocator.headerAddr, others, ps)
    {
      hide Allocator.Valid, LiveOf, Holds, Untouched, HeadAt, Shares, Extent, SetOf;
      ghost var p, n := [address] + overflows, |overflows|;
      SharesFewer(allocator.Live(), others, p);
      HoldsShorter(allocator.memory.bytes, p, ps, content, n);
      assert p[..n] == [address] + overflows[..n - 1] && p[n] == overflows[n - 1];
      ghost var b := allocator.memory.bytes;
      LastLive(n);
      allocator.Deallocate(overflows[|overflows| - 1]);
      overflows := overflows[..|overflows| - 1];
      SharesOthers(allocator.Live(), others, [address] + overflows);
      UntouchedFewer(b, allocator.memory.bytes, allocator.headerAddr, allocator.Live(), others, ps);
      CutFrame(b, allocator.memory.bytes, allocator.headerAddr, allocator.Live(), ov0, n - 1);
    }

    lemma LastLive(n: nat)
      requires Shares(allocator.Live(), others, [address] + overflows) && n == |overflows| && 0 < n
      ensures overflows[n - 1] in allocator.Live()
    {
      assert ([address] + overflows)[n] in SetOf([address] + overflows);
    }

    lemma CutFrame(b: Bytes, b': Bytes, front: nat, live: set<Address>, ov0: seq<Address>, n: nat)
      requires n <= |ov0| && overflows == ov0[..n] && Untouched(b, b', front, live, ps) && SetOf([address] + overflows) <= live
      requires Holds(b, [address] + overflows, ps, content) && HeadsUpTo(b, ov0, n)
      ensures Holds(b', [address] + overflows, ps, content) && HeadsUpTo(b', ov0, n)
    {
      hide HeadBytes;
      var p := [address] + overflows;
      assert forall k :: 0 <= k < |p| ==> p[k] in SetOf(p);
      HoldsFrame(b, b', p, ps, content);
      forall k | 0 <= k < n
        ensures HeadAt(b', ov0, k)
      {
        assert HeadAt(b, ov0, k) && p[k + 1] == ov0[k];
        assert b'[ov0[k]..ov0[k] + PAGE_OVERFLOW_DATA_OFFSET] == b[ov0[k]..ov0[k] + PAGE_OVERFLOW_DATA_OFFSET];
      }
    }

    /** Makes the last page, or the initial page, name no further page. */
    method EndChain(ghost ov0: seq<Address>)
      requires Cutting(ov0) && ENTRIES_OFFSET <= |content| && Patch(content, ov0) == content
      modifies this`content, allocator.memory
      ensures Good() && content == Patch(old(content), overflows)
      ensures Untouched(old(allocator.memory.bytes), allocator.memory.bytes, allocator.headerAddr, others, ps)
    {
      hide Allocator.Valid, LiveOf, Untouched, Wrote, U64, Holds, HeadAt, PagesApart, Shares;
      ghost var b, p := allocator.memory.bytes, [address] + overflows;
      PagesLive(allocator, others, p, ps);
      FieldsFit(NULL);
      assert p[0] == address;
      if overflows == [] {
        allocator.WritePage(address, OVERFLOW_ADDRESS_OFFSET, U64(NULL));
        assert p == [address];
        CutFirst(b, allocator.memory.bytes, address, ps, content);
        UntouchedFewer(b, allocator.memory.bytes, allocator.headerAddr, allocator.Live() - {address}, others, ps);
        PatchTwice(content, [], []);
        content := Patch(content, []);
      } else {
        var last := overflows[|overflows| - 1];
        assert p[|overflows|] == last;
        allocator.WritePage(last, PAGE_OVERFLOW_NEXT_OFFSET, U64(NULL));
        CutHeads(b, allocator.memory.bytes, address, ov0, |overflows|, ps);
        CutString(b, allocator.memory.bytes, address, overflows, ps, content);
        UntouchedFewer(b, allocator.memory.bytes, allocator.headerAddr, allocator.Live() - {last}, others, ps);
      }
    }

    /** Frees the pages that are not needed and ends the chain. */
    method Finish() returns (ov: seq<Address>)
      requires Valid() && ENTRIES_OFFSET <= |content|
      modifies this`overflows, this`content, allocator, allocator.memory
      ensures Good() && ov == overflows && content == Patch(old(content), ov) && |ov| == NumOverflowPages(|content|, ps)
      ensures Untouched(old(allocator.memory.bytes), allocator.memory.bytes, allocator.headerAddr, others, ps)
    {
      hide Allocator.Valid, LiveOf, U64, Shares, Holds, Untouched, Patch, HeadAt, Extent, NumOverflowPages, Heads;
      RoomTaken(allocator.memory.bytes, address, overflows, ps, content);
      var needed := NumOverflowPages(maxOffset, ps);
      assert needed <= |overflows|;
      ghost var b, ov0 := allocator.memory.bytes, overflows;
      assert overflows == ov0[..|overflows|];
      UntouchedSelf(b, allocator.headerAddr, others, ps);
      while needed < |overflows|
        invariant needed <= |overflows| && Cutting(ov0) && content == old(content)
        invariant Untouched(b, allocator.memory.bytes, allocator.headerAddr, others, ps)
      {
        ghost var b1 := allocator.memory.bytes;
        ExtentGrows(ps, needed, |overflows| - 1);
        DropPage(ov0);
        UntouchedTwice(b, b1, allocator.memory.bytes, allocator.headerAddr, others, ps);
      }
      ghost var b1 := allocator.memory.bytes;
      EndChain(ov0);
      UntouchedTwice(b, b1, allocator.memory.bytes, allocator.headerAddr, others, ps);
      ov := overflows;
      PatchTwice(old(content), ov, ov);
    }

    lemma RoomTaken(b: Bytes, a: Address, ov: seq<Address>, ps: PageSize, s: Bytes)
      requires InProgress(b, a, ov, ps, s)
      ensures NumOverflowPages(|s|, ps) <= |ov|
      ensures HeadsUpTo(b, ov, |ov|)
    {
    }
  }

  /** Reads part of a node through its pages. */
  method ReadNode(memory: Memory, a: Address, ov: seq<Address>, ps: PageSize, off: nat, n: nat, ghost s: Bytes) returns (r: Bytes)
    requires Holds(memory.bytes, [a] + ov, ps, s) && PagesApart(memory.bytes, [a] + ov, ps) && off + n <= |s|
    ensures r == s[off..off + n]
  {
    hide Holds, PagesApart;
    if off + n < ps {
      FirstRead(memory.bytes, [a] + ov, ps, s, off, n);
      r := memory.Read(a + off, n);
    } else {
      r := ReadSegments(memory, a, ov, ps, off, n, s);
    }
  }

  /** Reads page by page. */
  method ReadSegments(memory: Memory, a: Address, ov: seq<Address>, ps: PageSize, off: nat, n: nat, ghost s: Bytes) returns (r: Bytes)
    requires Holds(memory.bytes, [a] + ov, ps, s) && PagesApart(memory.bytes, [a] + ov, ps) && off + n <= |s|
    ensures r == s[off..off + n]
  {
    hide Holds, PagesApart;
    ghost var p := [a] + ov;
    r := [];
    var position := 0;
    while position < n
      invariant 0 <= position <= n && r == s[off..off + position]
    {
      var seg := NextSegment(ps, off + position, n - position);
      SegmentHeld(memory.bytes, p, ps, s, off + position, seg);
      var page := if seg.page == 0 then a else ov[seg.page - 1];
      assert page == p[seg.page];
      var piece := memory.Read(page + seg.offset, seg.length);
      SlicesJoin(s, off, position, seg.length);
      r := r + piece;
      position := position + seg.length;
    }
  }

  lemma {:induction false} SlicesJoin(s: Bytes, off: nat, p: nat, n: nat)
    requires off + p + n <= |s|
    ensures s[off..off + p] + s[off + p..off + p + n] == s[off..off + (p + n)]
  {
  }

  lemma {:induction false} FirstRead(b: Bytes, p: seq<Address>, ps: PageSize, s: Bytes, off: nat, n: nat)
    requires Holds(b, p, ps, s) && PagesApart(b, p, ps) && off + n <= |s| && off + n <= ps
    ensures p[0] + off + n <= |b| && b[p[0] + off..p[0] + off + n] == s[off..off + n]
  {
    var r := b[p[0] + off..p[0] + off + n];
    forall i | 0 <= i < n
      ensures r[i] == s[off + i]
    {
      assert Real(p, ps, off + i) == p[0] + (off + i);
    }
  }

  /** A segment of what is held lies on a page of the node, and holds its part. */
  lemma {:induction false} SegmentHeld(b: Bytes, p: seq<Address>, ps: PageSize, s: Bytes, x: nat, seg: RealSegment)
    requires Holds(b, p, ps, s) && PagesApart(b, p, ps) && 0 < seg.length && x + seg.length <= |s| && seg.offset + seg.length <= ps
    requires forall y :: x <= y < x + seg.length ==> PageOf(ps, y) == seg.page && PlaceOf(ps, y) == seg.offset + (y - x)
    ensures seg.page < |p| && p[seg.page] + seg.offset + seg.length <= |b|
    ensures b[p[seg.page] + seg.offset..p[seg.page] + seg.offset + seg.length] == s[x..x + seg.length]
  {
    assert PageOf(ps, x) == seg.page;
    PieceRead(b, p, ps, s, x, seg);
  }

  lemma {:induction false} PieceRead(b: Bytes, p: seq<Address>, ps: PageSize, s: Bytes, x: nat, seg: RealSegment)
    requires Holds(b, p, ps, s) && x + seg.length <= |s| && seg.page < |p| && p[seg.page] + seg.offset + seg.length <= |b|
    requires forall y :: x <= y < x + seg.length ==> PageOf(ps, y) == seg.page && PlaceOf(ps, y) == seg.offset + (y - x)
    ensures b[p[seg.page] + seg.offset..p[seg.page] + seg.offset + seg.length] == s[x..x + seg.length]
  {
    var piece := b[p[seg.page] + seg.offset..p[seg.page] + seg.offset + seg.length];
    forall i | 0 <= i < seg.length
      ensures piece[i] == s[x..x + seg.length][i]
    {
      assert Real(p, ps, x + i) == p[seg.page] + seg.offset + i;
    }
  }
}
