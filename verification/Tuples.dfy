/** Tuples as bytes: how the pieces of a pair and of a triple are told apart again. */
module Tuples {
  import opened Types
  import opened Memories
  import opened Layout

  datatype TypeBound = Limited(maxSize: nat, fixed: bool) | Unlimited

  /** The largest size a bound can name: it is kept in 32 bits. */
  const MAX_SIZE := 0xFFFF_FFFF

  predicate WellFormed(b: TypeBound) {
    b.Limited? ==> b.maxSize <= MAX_SIZE
  }

  predicate IsFixed(b: TypeBound) {
    b.Limited? && b.fixed
  }

  /** Whether the bytes of an element keep to the bound of its type. */
  predicate Fits(b: TypeBound, a: Bytes) {
    b.Limited? ==> |a| <= b.maxSize && (b.fixed ==> |a| == b.maxSize)
  }

  function BytesToStore(size: nat): nat {
    if size <= 0xFF then 1 else if size <= 0xFFFF then 2 else 4
  }

  /** The low bytes of a size, the highest first; a size that needs more is cut off. */
  function EncodeSize(n: nat, len: nat): Bytes {
    if len == 1 then [n % 256]
    else if len == 2 then [n / 256 % 256, n % 256]
    else [n / 0x100_0000 % 256, n / 0x1_0000 % 256, n / 256 % 256, n % 256]
  }

  function DecodeSize(s: Bytes, len: nat): Option<nat> {
    if len == 1 then if |s| < 1 then None else Some(s[0])
    else if len == 2 then if |s| < 2 then None else Some(s[0] * 256 + s[1])
    else if |s| < 4 then None else Some(s[0] * 0x100_0000 + s[1] * 0x1_0000 + s[2] * 256 + s[3])
  }

  lemma {:induction false} SizeRoundTrip(n: nat, len: nat, rest: Bytes)
    requires len == 1 || len == 2 || len == 4
    ensures |EncodeSize(n, len)| == len
    ensures DecodeSize(EncodeSize(n, len) + rest, len) == Some(n % (if len == 1 then 0x100 else if len == 2 then 0x1_0000 else 0x1_0000_0000))
  {
    var s := EncodeSize(n, len) + rest;
    assert forall i :: 0 <= i < len ==> s[i] == EncodeSize(n, len)[i];
    Digits(n);
  }

  lemma {:induction false} Digits(n: nat)
    ensures n % 0x1_0000 == n / 256 % 256 * 256 + n % 256
    ensures n % 0x1_0000_0000 == n / 0x100_0000 % 256 * 0x100_0000 + n / 0x1_0000 % 256 * 0x1_0000 + n / 256 % 256 * 256 + n % 256
  {
    var high := n / 0x1_0000;
    TwoDigits(n);
    TwoDigits(high);
    Joined(high / 0x1_0000, high % 0x1_0000, n % 0x1_0000);
    assert high / 256 == n / 0x100_0000;
  }

  lemma {:induction false} Joined(t: nat, h: nat, l: nat)
    requires h < 0x1_0000 && l < 0x1_0000
    ensures (t * 0x1_0000_0000 + h * 0x1_0000 + l) % 0x1_0000_0000 == h * 0x1_0000 + l
  {
  }

  lemma {:induction false} TwoDigits(n: nat)
    ensures n % 0x1_0000 == n / 256 % 256 * 256 + n % 256
  {
    var q, r := n / 256, n % 256;
    var t, h := q / 256, q % 256;
    JoinedPair(t, h, r);
    assert n == q * 256 + r && q == t * 256 + h;
  }

  lemma {:induction false} JoinedPair(t: nat, h: nat, l: nat)
    requires h < 256 && l < 256
    ensures (t * 0x1_0000 + h * 256 + l) % 0x1_0000 == h * 256 + l
  {
  }

  lemma {:induction false} StoreWidth(n: nat)
    ensures var w := BytesToStore(n); w == 1 || w == 2 || w == 4
  {
  }

  /** A size takes the least width that can say it, and four bytes if there is none. */
  lemma {:induction false} StoreLeast(n: nat)
    ensures if n <= MAX_SIZE then LeastWidth(BytesToStore(n), n) else BytesToStore(n) == 4
  {
    hide Pow256;
    Powers();
  }

  /** A number in base 256, its highest digit first. */
  function BigEndian(s: Bytes): nat {
    if s == [] then 0 else BigEndian(s[..|s| - 1]) * 256 + s[|s| - 1]
  }

  lemma {:induction false} BigEndianTwo(x: Cell, y: Cell)
    ensures BigEndian([x]) == x && BigEndian([x, y]) == x * 256 + y
  {
    assert [x][..0] == [] && [x, y][..1] == [x];
  }

  lemma {:induction false} BigEndianFour(x: Cell, y: Cell, z: Cell, w: Cell)
    ensures BigEndian([x, y, z, w]) == x * 0x100_0000 + y * 0x1_0000 + z * 256 + w
  {
    BigEndianTwo(x, y);
    assert [x, y, z][..2] == [x, y] && [x, y, z, w][..3] == [x, y, z];
  }

  /** What is written of a size is the size in base 256, as much of it as the width can say. */
  lemma {:induction false} SizeSays(n: nat, len: nat)
    requires Width(len)
    ensures |EncodeSize(n, len)| == len && AllBytes(EncodeSize(n, len))
    ensures BigEndian(EncodeSize(n, len)) == n % Pow256(len)
  {
    hide Pow256, BigEndian;
    Powers();
    Digits(n);
    BigEndianTwo(n % 256, 0);
    BigEndianTwo(n / 256 % 256, n % 256);
    BigEndianFour(n / 0x100_0000 % 256, n / 0x1_0000 % 256, n / 256 % 256, n % 256);
  }

  /** A size that stays below a bound fits the bytes the bound takes. */
  lemma {:induction false} SizeBelow(n: nat, bound: nat)
    requires n <= bound <= MAX_SIZE
    ensures var w := BytesToStore(bound); n == n % if w == 1 then 0x100 else if w == 2 then 0x1_0000 else 0x1_0000_0000
  {
  }

  /** The size that was written comes back unless it does not fit four bytes. */
  lemma {:induction false} SizeKept(n: nat, rest: Bytes)
    ensures DecodeSize(EncodeSize(n, BytesToStore(n)) + rest, BytesToStore(n)) == Some(n % 0x1_0000_0000)
    ensures n % 0x1_0000_0000 == n <==> n <= MAX_SIZE
  {
    SizeRoundTrip(n, BytesToStore(n), rest);
  }

  // ---------------------------------------------------------------------------------------- pairs

  function SizeBytes(b: TypeBound): nat
    requires b.Limited?
  {
    if b.fixed then 0 else BytesToStore(b.maxSize)
  }

  function PairBound(ba: TypeBound, bb: TypeBound): TypeBound {
    if ba.Limited? && bb.Limited? then
      Limited(ba.maxSize + bb.maxSize + SizeBytes(ba) + SizeBytes(bb), ba.fixed && bb.fixed)
    else Unlimited
  }

  function Zeros(n: nat): Bytes {
    seq(n, _ => 0)
  }

  function SizeField(b: TypeBound, a: Bytes): Bytes
    requires b.Limited?
  {
    if b.fixed then [] else EncodeSize(|a|, BytesToStore(b.maxSize))
  }

  /** The elements, each padded to its largest size, then their sizes where these vary. */
  function EncodePair(ba: TypeBound, bb: TypeBound, a: Bytes, b: Bytes): Bytes
    requires ba.Limited? && bb.Limited? && Fits(ba, a) && Fits(bb, b)
  {
    a + Zeros(ba.maxSize - |a|) + (b + Zeros(bb.maxSize - |b|)) + SizeField(ba, a) + SizeField(bb, b)
  }

  function FieldSize(b: TypeBound, s: Bytes): Option<nat>
    requires b.Limited?
  {
    if b.fixed then Some(b.maxSize) else DecodeSize(s, BytesToStore(b.maxSize))
  }

  function DecodePair(ba: TypeBound, bb: TypeBound, s: Bytes): Option<(Bytes, Bytes)> {
    var bound := PairBound(ba, bb);
    if bound.Unlimited? || |s| != bound.maxSize then None
    else
      var sizes := s[ba.maxSize + bb.maxSize..];
      var aLen := FieldSize(ba, sizes[..SizeBytes(ba)]);
      var bLen := FieldSize(bb, sizes[SizeBytes(ba)..]);
      if aLen.None? || bLen.None? || |s| < aLen.value || |s| < ba.maxSize + bLen.value then None
      else Some((s[..aLen.value], s[ba.maxSize..ba.maxSize + bLen.value]))
  }

  lemma {:induction false} FieldRoundTrip(b: TypeBound, a: Bytes)
    requires b.Limited? && WellFormed(b) && Fits(b, a)
    ensures |SizeField(b, a)| == SizeBytes(b) && FieldSize(b, SizeField(b, a)) == Some(|a|)
  {
    hide EncodeSize, DecodeSize, BytesToStore;
    if !b.fixed {
      StoreWidth(b.maxSize);
      SizeBelow(|a|, b.maxSize);
      var len := BytesToStore(b.maxSize);
      SizeRoundTrip(|a|, len, []);
      assert EncodeSize(|a|, len) + [] == EncodeSize(|a|, len);
    }
  }

  /** A pair comes back whole, and takes exactly the space its bound names. */
  lemma {:induction false} PairRoundTrip(ba: TypeBound, bb: TypeBound, a: Bytes, b: Bytes)
    requires ba.Limited? && bb.Limited? && WellFormed(ba) && WellFormed(bb) && Fits(ba, a) && Fits(bb, b)
    ensures DecodePair(ba, bb, EncodePair(ba, bb, a, b)) == Some((a, b))
    ensures |EncodePair(ba, bb, a, b)| == PairBound(ba, bb).maxSize
  {
    hide SizeField, FieldSize, BytesToStore;
    FieldRoundTrip(ba, a);
    FieldRoundTrip(bb, b);
    var s, m := EncodePair(ba, bb, a, b), ba.maxSize;
    var x, y := a + Zeros(m - |a|), b + Zeros(bb.maxSize - |b|);
    assert s == x + (y + (SizeField(ba, a) + SizeField(bb, b)));
    var sizes := s[m + bb.maxSize..];
    assert sizes == SizeField(ba, a) + SizeField(bb, b);
    assert sizes[..SizeBytes(ba)] == SizeField(ba, a) && sizes[SizeBytes(ba)..] == SizeField(bb, b);
    assert s[..|a|] == a;
    assert s[m..m + |b|] == b;
  }

  /** A part of a pair, padded with zeros to its largest size, and the field that says its size: none if that is fixed, otherwise as
      wide as the largest size needs. */
  ghost predicate PartIn(b: TypeBound, a: Bytes, part: Bytes, field: Bytes)
    requires b.Limited?
  {
    && |part| == b.maxSize && |a| <= |part| && part[..|a|] == a && (forall i :: |a| <= i < |part| ==> part[i] == 0)
    && AllBytes(field) && if b.fixed then field == [] && |a| == b.maxSize else LeastWidth(|field|, b.maxSize) && BigEndian(field) == |a|
  }

  /** The parts of a pair start at 0 and at the largest size of the first, the fields behind both. */
  ghost predicate PairIn(ba: TypeBound, bb: TypeBound, a: Bytes, b: Bytes, s: Bytes)
    requires ba.Limited? && bb.Limited?
  {
    var m, n := ba.maxSize, bb.maxSize;
    exists p :: m + n <= p <= |s| && PartIn(ba, a, s[..m], s[m + n..p]) && PartIn(bb, b, s[m..m + n], s[p..])
  }

  lemma {:induction false} PartMeans(b: TypeBound, a: Bytes)
    requires b.Limited? && WellFormed(b) && Fits(b, a)
    ensures PartIn(b, a, a + Zeros(b.maxSize - |a|), SizeField(b, a))
  {
    hide EncodeSize, BytesToStore, BigEndian, LeastWidth, Pow256;
    var part := a + Zeros(b.maxSize - |a|);
    assert part[..|a|] == a;
    if !b.fixed {
      StoreWidth(b.maxSize);
      StoreLeast(b.maxSize);
      SizeBelow(|a|, b.maxSize);
      Powers();
      SizeSays(|a|, BytesToStore(b.maxSize));
    }
  }

  lemma {:induction false} PairMeans(ba: TypeBound, bb: TypeBound, a: Bytes, b: Bytes)
    requires ba.Limited? && bb.Limited? && WellFormed(ba) && WellFormed(bb) && Fits(ba, a) && Fits(bb, b)
    ensures PairIn(ba, bb, a, b, EncodePair(ba, bb, a, b))
  {
    hide PartIn, SizeField, Zeros;
    PartMeans(ba, a);
    PartMeans(bb, b);
    ZerosAre(ba.maxSize - |a|);
    ZerosAre(bb.maxSize - |b|);
    var x, y, f, g := a + Zeros(ba.maxSize - |a|), b + Zeros(bb.maxSize - |b|), SizeField(ba, a), SizeField(bb, b);
    var s := EncodePair(ba, bb, a, b);
    var m, n := ba.maxSize, bb.maxSize;
    assert s == x + y + f + g;
    assert s[..m] == x && s[m..m + n] == y && s[m + n..m + n + |f|] == f && s[m + n + |f|..] == g;
  }

  function Pasted(s: Bytes, at: nat, src: Bytes): (r: Bytes)
    requires at + |src| <= |s|
    ensures |r| == |s|
  {
    s[..at] + src + s[at + |src|..]
  }

  /** Copies bytes into a buffer. */
  method CopyInto(dst: array<Cell>, at: nat, src: Bytes)
    requires at + |src| <= dst.Length
    modifies dst
    ensures dst[..] == Pasted(old(dst[..]), at, src)
  {
    ghost var was := dst[..];
    for i := 0 to |src|
      invariant dst[..] == Pasted(was, at, src[..i])
    {
      ghost var now := dst[..];
      dst[at + i] := src[i];
      assert dst[..] == now[at + i := src[i]];
    }
    assert src[..|src|] == src;
  }

  /** Bytes written behind a prefix take the front of the zeros that follow it, and may leave some as padding. */
  lemma {:induction false} PasteBehind(p: Bytes, room: nat, src: Bytes, width: nat)
    requires |src| <= width <= room
    ensures |Zeros(room)| == room && |Zeros(width - |src|)| == width - |src|
    ensures Pasted(p + Zeros(room), |p|, src) == p + (src + Zeros(width - |src|)) + Zeros(room - width)
  {
  }

  /** Writes a pair into a buffer of the size its bound names; only pairs of bounded types are supported. */
  method PairToBytes(ba: TypeBound, bb: TypeBound, a: Bytes, b: Bytes) returns (r: Option<Bytes>)
    requires WellFormed(ba) && WellFormed(bb) && Fits(ba, a) && Fits(bb, b)
    ensures r == if ba.Limited? && bb.Limited? then Some(EncodePair(ba, bb, a, b)) else None
    ensures ba.Limited? && bb.Limited? ==> PairIn(ba, bb, a, b, r.value) && PairBound(ba, bb) == Limited(|r.value|, ba.fixed && bb.fixed)
  {
    hide PairIn;
    hide EncodeSize, DecodeSize, BytesToStore, Pasted, Zeros, SizeField;
    if ba.Unlimited? || bb.Unlimited? {
      return None;
    }
    FieldRoundTrip(ba, a);
    FieldRoundTrip(bb, b);
    var m, n, p, q := ba.maxSize, bb.maxSize, SizeBytes(ba), SizeBytes(bb);
    ghost var x, y := a + Zeros(m - |a|), b + Zeros(n - |b|);
    var bytes := new Cell[PairBound(ba, bb).maxSize](_ => 0);
    ZerosAre(m + n + p + q);
    assert bytes[..] == [] + Zeros(m + n + p + q);
    PasteBehind([], m + n + p + q, a, m);
    PasteBehind([] + x, n + p + q, b, n);
    PasteBehind([] + x + y, p + q, SizeField(ba, a), p);
    PasteBehind([] + x + y + (SizeField(ba, a) + Zeros(0)), q, SizeField(bb, b), q);
    CopyInto(bytes, 0, a);
    CopyInto(bytes, m, b);
    CopyInto(bytes, m + n, SizeField(ba, a));
    CopyInto(bytes, m + n + p, SizeField(bb, b));
    NoPadding(x, y, SizeField(ba, a), SizeField(bb, b));
    PairMeans(ba, bb, a, b);
    r := Some(bytes[..]);
  }

  lemma {:induction false} NoPadding(x: Bytes, y: Bytes, s: Bytes, t: Bytes)
    ensures [] + x + y + (s + Zeros(0)) + (t + Zeros(0)) + Zeros(0) == x + y + s + t
  {
  }

  // -------------------------------------------------------------------------------------- triples

  function Overhead(ba: TypeBound, bb: TypeBound, aSize: nat, bSize: nat): nat {
    if IsFixed(ba) && IsFixed(bb) then 0
    else 1 + (if IsFixed(ba) then 0 else BytesToStore(aSize)) + if IsFixed(bb) then 0 else BytesToStore(bSize)
  }

  function TripleBound(ba: TypeBound, bb: TypeBound, bc: TypeBound): TypeBound {
    if ba.Limited? && bb.Limited? && bc.Limited? then
      Limited(ba.maxSize + bb.maxSize + bc.maxSize + Overhead(ba, bb, ba.maxSize, bb.maxSize), ba.fixed && bb.fixed && bc.fixed)
    else Unlimited
  }

  /** Packs the lengths of sizes, each of 1, 2 or 4 bytes, into two bits apiece. */
  function PackLengths(sizes: seq<nat>): nat {
    if sizes == [] then 0 else PackLengths(sizes[..|sizes| - 1]) * 4 + BytesToStore(sizes[|sizes| - 1]) - 1
  }

  function UnpackLengths(x: nat, n: nat): (r: seq<nat>)
    ensures |r| == n
  {
    if n == 0 then [] else UnpackLengths(x / 4, n - 1) + [x % 4 + 1]
  }

  function LengthsOf(sizes: seq<nat>): seq<nat> {
    seq(|sizes|, i requires 0 <= i < |sizes| => BytesToStore(sizes[i]))
  }

  lemma {:induction false} PackRoundTrip(sizes: seq<nat>)
    ensures UnpackLengths(PackLengths(sizes), |sizes|) == LengthsOf(sizes)
  {
    if sizes != [] {
      var front := sizes[..|sizes| - 1];
      PackRoundTrip(front);
      assert LengthsOf(sizes) == LengthsOf(front) + [BytesToStore(sizes[|sizes| - 1])];
    }
  }

  function Pow4(n: nat): nat {
    if n == 0 then 1 else 4 * Pow4(n - 1)
  }

  /** Up to four lengths fit one byte. */
  lemma {:induction false} PackFits(sizes: seq<nat>)
    ensures PackLengths(sizes) < Pow4(|sizes|)
    ensures |sizes| <= 4 ==> PackLengths(sizes) < 256
  {
    if sizes != [] {
      PackFits(sizes[..|sizes| - 1]);
    }
    assert Pow4(4) == 256 && Pow4(3) == 64 && Pow4(2) == 16 && Pow4(1) == 4;
  }

  /** Packs lengths in a byte: two bits make room at the low end for each. */
  method PackSizes(sizes: seq<nat>) returns (packed: nat)
    requires |sizes| <= 4
    ensures packed == PackLengths(sizes) < 256 && UnpackLengths(packed, |sizes|) == LengthsOf(sizes)
  {
    packed := 0;
    for i := 0 to |sizes|
      invariant packed == PackLengths(sizes[..i])
    {
      assert sizes[..i + 1][..i] == sizes[..i];
      PackFits(sizes[..i + 1]);
      packed := packed * 4 % 256 + (BytesToStore(sizes[i]) - 1);
    }
    assert sizes[..|sizes|] == sizes;
    PackFits(sizes);
    PackRoundTrip(sizes);
  }

  function Reversed<T>(s: seq<T>): seq<T> {
    if s == [] then [] else [s[|s| - 1]] + Reversed(s[..|s| - 1])
  }

  /** Takes lengths off the low end of the byte, last first, and turns them round. */
  method UnpackSizes(packed: nat, n: nat) returns (lengths: seq<nat>)
    ensures lengths == UnpackLengths(packed, n)
  {
    var x, out := packed, [];
    for i := 0 to n
      invariant UnpackLengths(packed, n) == UnpackLengths(x, n - i) + Reversed(out)
    {
      assert (out + [x % 4 + 1])[..|out|] == out;
      out, x := out + [x % 4 + 1], x / 4;
    }
    lengths := Reversed(out);
  }

  function EncodeElement(b: TypeBound, a: Bytes): Bytes {
    if IsFixed(b) then a else EncodeSize(|a|, BytesToStore(|a|)) + a
  }

  function EncodeTriple(ba: TypeBound, bb: TypeBound, a: Bytes, b: Bytes, c: Bytes): Bytes {
    (if IsFixed(ba) && IsFixed(bb) then [] else [PackLengths([|a|, |b|])])
      + (EncodeElement(ba, a) + (EncodeElement(bb, b) + c))
  }

  /** An element of a triple and the field before it, which says its size unless that is fixed; a size that four bytes
      cannot say is cut off. */
  ghost predicate ElementIn(b: TypeBound, a: Bytes, field: Bytes) {
    && AllBytes(field)
    && if IsFixed(b) then field == []
       else if |a| <= MAX_SIZE then LeastWidth(|field|, |a|) && BigEndian(field) == |a|
       else |field| == 4 && BigEndian(field) == |a| % 0x1_0000_0000
  }

  /** Two bits for the width of a size, even where the size is fixed and not written. */
  ghost predicate WidthBits(bits: nat, n: nat) {
    if n <= MAX_SIZE then LeastWidth(bits + 1, n) else bits == 3
  }

  /** A triple: a byte of widths, the first above the second, unless both are fixed; then field and bytes of the first
      and of the second; then the third. */
  ghost predicate TripleIn(ba: TypeBound, bb: TypeBound, a: Bytes, b: Bytes, c: Bytes, s: Bytes) {
    exists h: Bytes, f: Bytes, g: Bytes ::
      && s == h + f + a + g + b + c && ElementIn(ba, a, f) && ElementIn(bb, b, g)
      && if IsFixed(ba) && IsFixed(bb) then h == [] else |h| == 1 && h[0] < 16 && WidthBits(h[0] / 4, |a|) && WidthBits(h[0] % 4, |b|)
  }

  lemma {:induction false} ElementMeans(b: TypeBound, a: Bytes) returns (field: Bytes)
    ensures EncodeElement(b, a) == field + a && ElementIn(b, a, field)
  {
    hide EncodeSize, BytesToStore, BigEndian, Pow256;
    field := if IsFixed(b) then [] else EncodeSize(|a|, BytesToStore(|a|));
    if !IsFixed(b) {
      StoreWidth(|a|);
      StoreLeast(|a|);
      Powers();
      SizeSays(|a|, BytesToStore(|a|));
    }
  }

  lemma {:induction false} WidthsPacked(n: nat, m: nat)
    ensures var x := PackLengths([n, m]); x < 16 && WidthBits(x / 4, n) && WidthBits(x % 4, m)
  {
    hide BytesToStore, LeastWidth;
    StoreWidth(n);
    StoreWidth(m);
    StoreLeast(n);
    StoreLeast(m);
    var both := [n, m];
    assert both[..|both| - 1] == [n] && [n][..0] == [];
    assert PackLengths([n]) == BytesToStore(n) - 1;
    assert PackLengths(both) == (BytesToStore(n) - 1) * 4 + BytesToStore(m) - 1;
  }

  lemma {:induction false} TripleMeans(ba: TypeBound, bb: TypeBound, a: Bytes, b: Bytes, c: Bytes)
    ensures TripleIn(ba, bb, a, b, c, EncodeTriple(ba, bb, a, b, c))
  {
    hide ElementIn, EncodeElement, PackLengths, WidthBits;
    var f := ElementMeans(ba, a);
    var g := ElementMeans(bb, b);
    WidthsPacked(|a|, |b|);
    var h := if IsFixed(ba) && IsFixed(bb) then [] else [PackLengths([|a|, |b|])];
    assert EncodeTriple(ba, bb, a, b, c) == h + f + a + g + b + c;
  }

  /** Writes an element at an offset and returns the offset behind it. */
  method WriteElement(dst: array<Cell>, at: nat, b: TypeBound, a: Bytes, last: bool) returns (next: nat)
    requires at + |if last then a else EncodeElement(b, a)| <= dst.Length
    modifies dst
    ensures var e := if last then a else EncodeElement(b, a);
            next == at + |e| && dst[..] == Pasted(old(dst[..]), at, e)
  {
    hide EncodeSize, BytesToStore, Pasted;
    var size := if !last && !IsFixed(b) then EncodeSize(|a|, BytesToStore(|a|)) else [];
    assert (if last then a else EncodeElement(b, a)) == size + a;
    PasteTwice(dst[..], at, size, a);
    CopyInto(dst, at, size);
    CopyInto(dst, at + |size|, a);
    next := at + |size| + |a|;
  }

  lemma {:induction false} PasteTwice(s: Bytes, at: nat, x: Bytes, y: Bytes)
    requires at + |x| + |y| <= |s|
    ensures Pasted(Pasted(s, at, x), at + |x|, y) == Pasted(s, at, x + y)
  {
  }

  lemma {:induction false} ElementSize(b: TypeBound, a: Bytes)
    ensures |EncodeElement(b, a)| == |a| + if IsFixed(b) then 0 else BytesToStore(|a|)
  {
  }

  /** Writes a triple: a byte of lengths unless the first two are fixed, then the elements. */
  method TripleToBytes(ba: TypeBound, bb: TypeBound, bc: TypeBound, a: Bytes, b: Bytes, c: Bytes) returns (r: Bytes)
    ensures r == EncodeTriple(ba, bb, a, b, c)
    ensures TripleIn(ba, bb, a, b, c, r)
  {
    hide TripleIn;
    hide EncodeElement, BytesToStore, PackLengths, Zeros, Pasted;
    ElementSize(ba, a);
    ElementSize(bb, b);
    var overhead := Overhead(ba, bb, |a|, |b|);
    var bytes := new Cell[|a| + |b| + |c| + overhead](_ => 0);
    ghost var x, y := EncodeElement(ba, a), EncodeElement(bb, b);
    var offset := 0;
    ghost var front := [];
    if overhead != 0 {
      var packed := PackSizes([|a|, |b|]);
      bytes[0] := packed;
      offset, front := 1, [packed];
    }
    ZerosAre(bytes.Length - offset);
    assert bytes[..] == front + Zeros(|x| + |y| + |c|);
    WriteThree(bytes, offset, ba, bb, bc, a, b, c, front);
    TripleMeans(ba, bb, a, b, c);
    r := bytes[..];
  }

  /** Writes three elements, one after the other, to a buffer that has just the room for them. */
  method WriteThree(bytes: array<Cell>, at: nat, ba: TypeBound, bb: TypeBound, bc: TypeBound, a: Bytes, b: Bytes, c: Bytes, ghost front: Bytes)
    requires at == |front| && bytes[..] == front + Zeros(|EncodeElement(ba, a)| + |EncodeElement(bb, b)| + |c|)
    modifies bytes
    ensures bytes[..] == front + (EncodeElement(ba, a) + (EncodeElement(bb, b) + c))
  {
    hide EncodeElement, Zeros, Pasted;
    ghost var x, y := EncodeElement(ba, a), EncodeElement(bb, b);
    ZerosAre(|x| + |y| + |c|);
    ZerosAre(0);
    PasteExactly(front, x, |y| + |c|);
    PasteExactly(front + x, y, |c|);
    PasteExactly(front + x + y, c, 0);
    var offset := WriteElement(bytes, at, ba, a, false);
    offset := WriteElement(bytes, offset, bb, b, false);
    offset := WriteElement(bytes, offset, bc, c, true);
    assert front + x + y + c + Zeros(0) == front + (x + (y + c));
  }

  lemma {:induction false} ZerosAre(n: nat)
    ensures |Zeros(n)| == n && forall i :: 0 <= i < n ==> Zeros(n)[i] == 0
  {
  }

  lemma {:induction false} PasteExactly(p: Bytes, src: Bytes, room: nat)
    ensures |Zeros(|src| + room)| == |src| + room
    ensures Pasted(p + Zeros(|src| + room), |p|, src) == p + src + Zeros(room)
  {
    PasteBehind(p, |src| + room, src, |src|);
  }

  /** Takes an element off the front; fails where the bytes run out. */
  function DecodeElement(b: TypeBound, s: Bytes, len: nat): Option<(Bytes, Bytes)> {
    var read := if IsFixed(b) then 0 else len;
    var size := if IsFixed(b) then Some(b.maxSize) else DecodeSize(s, len);
    if size.None? || |s| < read + size.value then None
    else Some((s[read..read + size.value], s[read + size.value..]))
  }

  function DecodeTriple(ba: TypeBound, bb: TypeBound, bc: TypeBound, s: Bytes): Option<(Bytes, Bytes, Bytes)> {
    var packed := !(IsFixed(ba) && IsFixed(bb));
    if packed && s == [] then None
    else
      var lengths := UnpackLengths(if packed then s[0] else 0, 2);
      var x := DecodeElement(ba, if packed then s[1..] else s, lengths[0]);
      if x.None? then None
      else
        var y := DecodeElement(bb, x.value.1, lengths[1]);
        if y.None? || (IsFixed(bc) && |y.value.1| < bc.maxSize) then None
        else Some((x.value.0, y.value.0, if IsFixed(bc) then y.value.1[..bc.maxSize] else y.value.1))
  }

  /** Whether the size of an element can be written down: a size that varies has four bytes at most. */
  predicate Sizable(b: TypeBound, a: Bytes) {
    IsFixed(b) || |a| <= MAX_SIZE
  }

  lemma {:induction false} ElementRoundTrip(b: TypeBound, a: Bytes, rest: Bytes)
    requires Fits(b, a)
    ensures var r := DecodeElement(b, EncodeElement(b, a) + rest, BytesToStore(|a|));
            if Sizable(b, a) then r == Some((a, rest)) else r.Some? ==> r.value.0 != a
  {
    hide EncodeSize, DecodeSize, BytesToStore;
    var s, len := EncodeElement(b, a) + rest, BytesToStore(|a|);
    StoreWidth(|a|);
    if IsFixed(b) {
      assert s[..|a|] == a && s[|a|..] == rest;
    } else {
      SizeKept(|a|, a + rest);
      SizeRoundTrip(|a|, len, a + rest);
      assert s == EncodeSize(|a|, len) + (a + rest);
      assert s[len..] == a + rest;
      if |a| <= MAX_SIZE {
        assert s[len..len + |a|] == a && s[len + |a|..] == rest;
      }
    }
  }

  /** A triple comes back whole exactly when the sizes that must be written down can be. */
  lemma {:induction false} TripleRoundTrip(ba: TypeBound, bb: TypeBound, bc: TypeBound, a: Bytes, b: Bytes, c: Bytes)
    requires Fits(ba, a) && Fits(bb, b) && Fits(bc, c)
    ensures DecodeTriple(ba, bb, bc, EncodeTriple(ba, bb, a, b, c)) == Some((a, b, c)) <==> Sizable(ba, a) && Sizable(bb, b)
  {
    hide DecodeElement, EncodeElement, PackLengths, UnpackLengths;
    var s, packed := EncodeTriple(ba, bb, a, b, c), !(IsFixed(ba) && IsFixed(bb));
    var body := EncodeElement(ba, a) + (EncodeElement(bb, b) + c);
    assert (if packed then s[1..] else s) == body;
    PackRoundTrip([|a|, |b|]);
    assert packed ==> s[0] == PackLengths([|a|, |b|]);
    FixedAnyLength(ba, body, UnpackLengths(if packed then s[0] else 0, 2)[0], BytesToStore(|a|));
    FixedAnyLength(bb, EncodeElement(bb, b) + c, UnpackLengths(if packed then s[0] else 0, 2)[1], BytesToStore(|b|));
    ElementRoundTrip(ba, a, EncodeElement(bb, b) + c);
    ElementRoundTrip(bb, b, c);
    assert c[..|c|] == c;
  }

  lemma {:induction false} FixedAnyLength(b: TypeBound, s: Bytes, x: nat, y: nat)
    ensures IsFixed(b) ==> DecodeElement(b, s, x) == DecodeElement(b, s, y)
  {
  }

  /** Every triple keeps to the bound of its type, and one of the largest parts reaches it. */
  lemma {:induction false} TripleFits(ba: TypeBound, bb: TypeBound, bc: TypeBound, a: Bytes, b: Bytes, c: Bytes)
    requires Fits(ba, a) && Fits(bb, b) && Fits(bc, c)
    ensures Fits(TripleBound(ba, bb, bc), EncodeTriple(ba, bb, a, b, c))
    ensures TripleBound(ba, bb, bc).Limited? <==> ba.Limited? && bb.Limited? && bc.Limited?
    ensures IsFixed(TripleBound(ba, bb, bc)) <==> IsFixed(ba) && IsFixed(bb) && IsFixed(bc)
    ensures ba.Limited? && bb.Limited? && bc.Limited? && |a| == ba.maxSize && |b| == bb.maxSize && |c| == bc.maxSize ==>
              |EncodeTriple(ba, bb, a, b, c)| == TripleBound(ba, bb, bc).maxSize
  {
  }

  /** A triple of bytes is written as bytes. */
  lemma {:induction false} TripleIsBytes(ba: TypeBound, bb: TypeBound, a: Bytes, b: Bytes, c: Bytes)
    requires AllBytes(a) && AllBytes(b) && AllBytes(c)
    ensures AllBytes(EncodeTriple(ba, bb, a, b, c))
  {
    hide EncodeElement, PackLengths;
    PackFits([|a|, |b|]);
    ElementIsBytes(ba, a);
    ElementIsBytes(bb, b);
    var x, y := EncodeElement(ba, a), EncodeElement(bb, b);
    BytesJoin(y, c);
    BytesJoin(x, y + c);
    BytesJoin(if IsFixed(ba) && IsFixed(bb) then [] else [PackLengths([|a|, |b|])], x + (y + c));
  }

  lemma {:induction false} ElementIsBytes(b: TypeBound, a: Bytes)
    requires AllBytes(a)
    ensures AllBytes(EncodeElement(b, a))
  {
    BytesJoin(EncodeSize(|a|, BytesToStore(|a|)), a);
  }
}
