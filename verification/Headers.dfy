/** The header of a map, and the page size its version implies. */
module Headers {
  import opened Types
  import opened Layout
  import opened Trees
  import opened Paging
  import opened Memories

  const LAYOUT_VERSION: nat := 1
  const LAYOUT_VERSION_2: nat := 2
  const PACKED_HEADER_SIZE: nat := 28
  const ALLOCATOR_OFFSET: nat := 52
  const DEFAULT_PAGE_SIZE: nat := 1024
  const PAGE_SIZE_VALUE_MARKER: nat := 0xFFFF_FFFF

  /** The version of a map: V2 pages have a size of their own, or one derived from the bounds of a V1 map. */
  datatype Version =
    | V1(maxKey: nat, maxValue: nat)
    | V2Derived(maxKey: nat, maxValue: nat)
    | V2Value(size: nat)

  datatype Header = Header(version: Version, root: Address, length: nat)

  /** The header as written: a derived page size is written as that of a V1 map. */
  function MapHeader(h: Header): (s: Bytes)
    ensures |s| == PACKED_HEADER_SIZE
  {
    [66, 84, 82]
    + (match h.version
       case V1(k, v) => [LAYOUT_VERSION] + U32(k) + U32(v)
       case V2Derived(k, v) => [LAYOUT_VERSION] + U32(k) + U32(v)
       case V2Value(n) => [LAYOUT_VERSION_2] + U32(n) + U32(PAGE_SIZE_VALUE_MARKER))
    + U64(h.root) + U64(h.length)
  }

  /** The header as read; none if the magic or the version is not known. */
  function ReadHeader(s: Bytes): Option<Header>
    requires |s| == PACKED_HEADER_SIZE
  {
    var a, b := FromLE(s[4..8]), FromLE(s[8..12]);
    var root, length := FromLE(s[12..20]), FromLE(s[20..28]);
    if s[..3] != [66, 84, 82] then None
    else if s[3] == LAYOUT_VERSION then Some(Header(V1(a, b), root, length))
    else if s[3] == LAYOUT_VERSION_2 then
      Some(Header(if b == PAGE_SIZE_VALUE_MARKER then V2Value(a) else V2Derived(a, b), root, length))
    else None
  }

  /** A V1 map is migrated to V2 when loaded. */
  function Migrated(v: Version): (w: Version)
    ensures !w.V1?
  {
    if v.V1? then V2Derived(v.maxKey, v.maxValue) else v
  }

  /** Reading back a header and migrating gives what was written, migrated. Without the migration a header is read as it
      was written exactly if its page size is not a derived one. */
  lemma {:induction false} HeaderRoundTrip(h: Header)
    ensures ReadHeader(MapHeader(h)).Some?
    ensures var r := ReadHeader(MapHeader(h)).value;
            r.(version := Migrated(r.version)) == h.(version := Migrated(h.version))
    ensures ReadHeader(MapHeader(h)) == Some(h) <==> !h.version.V2Derived?
  {
    hide U32, U64;
    var s := MapHeader(h);
    assert s[12..20] == U64(h.root) && s[20..28] == U64(h.length);
    match h.version
    case V1(k, v) => assert s[4..8] == U32(k) && s[8..12] == U32(v);
    case V2Derived(k, v) => assert s[4..8] == U32(k) && s[8..12] == U32(v);
    case V2Value(n) => assert s[4..8] == U32(n) && s[8..12] == U32(PAGE_SIZE_VALUE_MARKER);
  }

  /** Where the fields of a header are: magic, layout version, two sizes, the root and the length. */
  lemma {:induction false} HeaderPlaces(h: Header)
    ensures var s := MapHeader(h);
            && s[..3] == [66, 84, 82] && (s[3] == if h.version.V2Value? then 2 else 1)
            && (if h.version.V2Value? then FromLE(s[4..8]) == h.version.size && FromLE(s[8..12]) == 0xFFFF_FFFF
                else FromLE(s[4..8]) == h.version.maxKey && FromLE(s[8..12]) == h.version.maxValue)
            && FromLE(s[12..20]) == h.root && FromLE(s[20..28]) == h.length
  {
    hide U32, U64, FromLE;
    var s := MapHeader(h);
    assert s[12..20] == U64(h.root) && s[20..28] == U64(h.length);
    if h.version.V2Value? {
      assert s[4..8] == U32(h.version.size) && s[8..12] == U32(PAGE_SIZE_VALUE_MARKER);
    } else {
      assert s[4..8] == U32(h.version.maxKey) && s[8..12] == U32(h.version.maxValue);
    }
  }

  /** Migration leaves the header as it was written. */
  lemma {:induction false} SameHeader(h: Header)
    ensures MapHeader(h.(version := Migrated(h.version))) == MapHeader(h)
  {
  }

  /** The size of a V1 node whose keys and values are as large as they may be. */
  function MaxNodeSize(maxKey: nat, maxValue: nat): nat {
    7 + CAPACITY * (4 + maxKey + maxValue + 4) + (CAPACITY + 1) * 8
  }

  /** The page size of a map. */
  function PageBytes(v: Version): nat {
    match v
    case V1(k, w) => MaxNodeSize(k, w)
    case V2Derived(k, w) => MaxNodeSize(k, w)
    case V2Value(n) => n
  }

  /** The room in the slots of V1 nodes, in a map that may have any. */
  function SlotsOf(v: Version): Option<Room> {
    match v
    case V1(k, w) => Some(Room(k, w))
    case V2Derived(k, w) => Some(Room(k, w))
    case V2Value(n) => None
  }

  /** Whether the page size fits the 32 bits it is kept in. The bounds of a derived size are smaller than the size. */
  predicate VersionFits(v: Version) {
    PageBytes(v) <= MAX_LENGTH
  }

  /** The header as written is made of bytes, if the version, the root and the length fit their fields. */
  lemma {:induction false} MapHeaderIsBytes(h: Header)
    requires VersionFits(h.version)
    ensures AllBytes(MapHeader(h)) <==> h.root < ADDRESS_SPACE && h.length < ADDRESS_SPACE
  {
    hide U32, U64;
    FieldsFit(h.root);
    FieldsFit(h.length);
    FieldsFit(PAGE_SIZE_VALUE_MARKER);
    var v := match h.version
      case V1(k, w) => [LAYOUT_VERSION] + U32(k) + U32(w)
      case V2Derived(k, w) => [LAYOUT_VERSION] + U32(k) + U32(w)
      case V2Value(n) => [LAYOUT_VERSION_2] + U32(n) + U32(PAGE_SIZE_VALUE_MARKER);
    VersionIsBytes(h.version);
    BytesJoin([66, 84, 82], v);
    BytesJoin([66, 84, 82] + v, U64(h.root));
    BytesJoin([66, 84, 82] + v + U64(h.root), U64(h.length));
  }

  lemma {:induction false} VersionIsBytes(v: Version)
    requires VersionFits(v)
    ensures v.V1? ==> AllBytes([LAYOUT_VERSION] + U32(v.maxKey) + U32(v.maxValue))
    ensures v.V2Derived? ==> AllBytes([LAYOUT_VERSION] + U32(v.maxKey) + U32(v.maxValue))
    ensures v.V2Value? ==> AllBytes([LAYOUT_VERSION_2] + U32(v.size) + U32(PAGE_SIZE_VALUE_MARKER))
  {
    hide U32, AllBytes;
    match v
    case V1(k, w) => TaggedIsBytes(LAYOUT_VERSION, k, w);
    case V2Derived(k, w) => TaggedIsBytes(LAYOUT_VERSION, k, w);
    case V2Value(n) => TaggedIsBytes(LAYOUT_VERSION_2, n, PAGE_SIZE_VALUE_MARKER);
  }

  lemma {:induction false} TaggedIsBytes(tag: nat, a: nat, b: nat)
    requires tag < 256 && a <= MAX_LENGTH && b <= MAX_LENGTH
    ensures AllBytes([tag] + U32(a) + U32(b))
  {
    hide U32;
    FieldsFit(a);
    FieldsFit(b);
    BytesJoin([tag], U32(a));
    BytesJoin([tag] + U32(a), U32(b));
  }

  /** The version of a new map: three quarters of the largest node if both types are bounded, cut off at 32 bits. The
      result is a page size that nodes can be saved to whenever it fits; a size that does not may be cut off to
      less than the smallest page. */
  function NewVersion(keyBound: Option<nat>, valueBound: Option<nat>): (v: Version)
    ensures VersionFits(v) && !v.V1?
    ensures keyBound.None? || valueBound.None? || MaxNodeSize(keyBound.value, valueBound.value) * 3 / 4 <= MAX_LENGTH ==>
              MINIMUM_PAGE_SIZE <= PageBytes(v)
  {
    if keyBound.Some? && valueBound.Some? then
      V2Value(MaxNodeSize(keyBound.value, valueBound.value) * 3 / 4 % (MAX_LENGTH + 1))
    else V2Value(DEFAULT_PAGE_SIZE)
  }

  /** A new map has pages of 1024 bytes, or, if both types are bounded, of three quarters of the largest node, rounded
      down, unless that is cut off. */
  lemma {:induction false} NewPageSize(keyBound: Option<nat>, valueBound: Option<nat>)
    ensures var size := PageBytes(NewVersion(keyBound, valueBound));
            if keyBound.None? || valueBound.None? then size == 1024
            else var most := MaxNodeSize(keyBound.value, valueBound.value);
                 (4 * size <= 3 * most < 4 * size + 4) <==> 3 * most < 4 * (MAX_LENGTH + 1)
  {
  }

  /** Bounds of 32 bits for which the page size of a new map is cut off to less than the smallest page. */
  lemma {:induction false} PageTooSmall() returns (keyBound: nat, valueBound: nat)
    ensures keyBound <= MAX_LENGTH && valueBound <= MAX_LENGTH
    ensures PageBytes(NewVersion(Some(keyBound), Some(valueBound))) < MINIMUM_PAGE_SIZE
  {
    keyBound, valueBound := 520602080, 0;
  }
}
