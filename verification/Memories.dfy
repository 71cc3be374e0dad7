/** The byte memory under every structure. */
module Memories {
  import opened Types

  const WASM_PAGE_SIZE: nat := 65536

  /** `b'` is `b`, possibly grown, with `src` written at `off`. */
  ghost predicate Wrote(b: Bytes, b': Bytes, off: nat, src: Bytes) {
    && |b| <= |b'| && off + |src| <= |b'|
    && (forall i :: off <= i < off + |src| ==> b'[i] == src[i - off])
    && (forall i :: 0 <= i < |b| && !(off <= i < off + |src|) ==> b'[i] == b[i])
    && (forall i :: |b| <= i < |b'| && !(off <= i < off + |src|) ==> b'[i] == 0)
  }

  /** The size a memory grows to for a write that ends at `last`. */
  function GrownTo(size: nat, last: nat): nat {
    if last <= size then size else size + (last - size + (WASM_PAGE_SIZE - 1)) / WASM_PAGE_SIZE * WASM_PAGE_SIZE
  }

  /** A memory grows by whole pages, by no more of them than the write needs, and not at all if it has the room. */
  lemma {:induction false} GrowsLeast(size: nat, last: nat)
    ensures var n := GrownTo(size, last);
            size <= n && last <= n && (n - size) % WASM_PAGE_SIZE == 0 && (size < n ==> n - WASM_PAGE_SIZE < last)
  {
    if size < last {
      var pages := (last - size + (WASM_PAGE_SIZE - 1)) / WASM_PAGE_SIZE;
      assert pages * WASM_PAGE_SIZE % WASM_PAGE_SIZE == 0;
    }
  }

  lemma {:induction false} ReadBack(b: Bytes, b': Bytes, off: nat, src: Bytes)
    requires Wrote(b, b', off, src)
    ensures b'[off..off + |src|] == src
  {
  }

  lemma {:induction false} ReadOther(b: Bytes, b': Bytes, off: nat, src: Bytes, lo: nat, hi: nat)
    requires Wrote(b, b', off, src) && lo <= hi <= |b| && (hi <= off || off + |src| <= lo)
    ensures b'[lo..hi] == b[lo..hi]
  {
  }

  // ---- Cells are bytes

  /** Every cell is a byte, unless the memory is larger than addresses can say: a memory that would have to
      become so large does not grow, and the program ends. */
  ghost predicate Genuine(b: Bytes) {
    |b| <= ADDRESS_SPACE ==> AllBytes(b)
  }

  /** What may be written to a memory that holds `b`. */
  ghost predicate Writable(b: Bytes, src: Bytes) {
    |b| <= ADDRESS_SPACE ==> AllBytes(src)
  }

  lemma {:induction false} StillGenuine(b: Bytes, b': Bytes, off: nat, src: Bytes)
    requires Genuine(b) && Writable(b, src) && Wrote(b, b', off, src)
    ensures Genuine(b')
  {
    if |b'| <= ADDRESS_SPACE {
      forall i | 0 <= i < |b'|
        ensures b'[i] < 256
      {
        if off <= i < off + |src| {
          assert b'[i] == src[i - off];
        }
      }
    }
  }

  lemma {:induction false} WritableLater(b: Bytes, b': Bytes, src: Bytes)
    requires Writable(b, src) && |b| <= |b'|
    ensures Writable(b', src)
  {
  }

  lemma {:induction false} WritableParts(b: Bytes, src: Bytes)
    requires Writable(b, src)
    ensures forall lo, hi :: 0 <= lo <= hi <= |src| ==> Writable(b, src[lo..hi])
  {
  }

  lemma {:induction false} BytesJoin(s: Bytes, t: Bytes)
    ensures AllBytes(s + t) <==> AllBytes(s) && AllBytes(t)
  {
    assert forall i :: 0 <= i < |s| ==> (s + t)[i] == s[i];
    assert forall i :: 0 <= i < |t| ==> (s + t)[|s| + i] == t[i];
  }

  /** Every cell is a byte, but perhaps for some. */
  ghost predicate BytesBut(b: Bytes, lo: nat, hi: nat) {
    forall i :: 0 <= i < |b| && !(lo <= i < hi) ==> b[i] < 256
  }

  lemma {:induction false} StillBytesBut(b: Bytes, b': Bytes, off: nat, src: Bytes, lo: nat, hi: nat)
    requires BytesBut(b, lo, hi) && Wrote(b, b', off, src) && (AllBytes(src) || (lo <= off && off + |src| <= hi))
    ensures BytesBut(b', lo, hi)
  {
    forall i | 0 <= i < |b'| && !(lo <= i < hi)
      ensures b'[i] < 256
    {
      if off <= i < off + |src| {
        assert b'[i] == src[i - off];
      }
    }
  }

  lemma {:induction false} StillBytes(b: Bytes, b': Bytes, off: nat, src: Bytes)
    requires AllBytes(b) && Wrote(b, b', off, src) && AllBytes(src)
    ensures AllBytes(b')
  {
    StillBytesBut(b, b', off, src, 0, 0);
  }

  class Memory {
    var bytes: Bytes

    constructor ()
      ensures bytes == []
    {
      bytes := [];
    }

    ghost predicate Valid()
      reads this
    {
      |bytes| % WASM_PAGE_SIZE == 0
    }

    function Size(): nat
      reads this
    {
      |bytes| / WASM_PAGE_SIZE
    }

    method Read(off: nat, n: nat) returns (s: Bytes)
      requires off + n <= |bytes|
      ensures s == bytes[off..off + n]
    {
      s := bytes[off..off + n];
    }

    /** Adds pages of zeroes. */
    method Grow(pages: nat)
      modifies this
      ensures bytes == old(bytes) + seq(pages * WASM_PAGE_SIZE, _ => 0)
      ensures old(Valid()) ==> Valid()
    {
      bytes := bytes + seq(pages * WASM_PAGE_SIZE, _ => 0);
    }

    /** Writes, growing the memory if that is needed and allowed; otherwise nothing is written. */
    method SafeWrite(off: nat, src: Bytes, canGrow: bool) returns (ok: bool)
      modifies this
      ensures ok <==> canGrow || off + |src| <= old(|bytes|)
      ensures if ok then Wrote(old(bytes), bytes, off, src) && |bytes| == GrownTo(old(|bytes|), off + |src|) else bytes == old(bytes)
      ensures old(Valid()) ==> Valid()
    {
      var last := off + |src|;
      if |bytes| < last && !canGrow {
        return false;
      }
      Write(off, src);
      ok := true;
    }

    /** Writes, growing the memory by whole pages of zeroes as needed. */
    method Write(off: nat, src: Bytes)
      modifies this
      ensures Wrote(old(bytes), bytes, off, src) && |bytes| == GrownTo(old(|bytes|), off + |src|)
      ensures old(Valid()) ==> Valid()
    {
      var last := off + |src|;
      if |bytes| < last {
        var pages := (last - |bytes| + (WASM_PAGE_SIZE - 1)) / WASM_PAGE_SIZE;
        bytes := bytes + seq(pages * WASM_PAGE_SIZE, _ => 0);
      }
      bytes := bytes[..off] + src + bytes[last..];
    }
  }
}
