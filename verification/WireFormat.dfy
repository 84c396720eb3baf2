// The RPM file format in its own numbers: what the bytes of a header and of a file say, stated without
// the parser's constants, its order of work or its arithmetic.
module WireFormat {
  import opened Bits

  // ----- numbers and strings

  // Most significant byte first
  function Number(b: bytes): nat {
    if b == [] then 0 else 256 * Number(b[..|b| - 1]) + b[|b| - 1]
  }

  function NumberAt(s: bytes, at: nat, n: nat): nat
    requires at + n <= |s|
  {
    Number(s[at..at + n])
  }

  function Zeroes(p: bytes): (indices: set<nat>) {
    set i: nat | 0 <= i < |p| && p[i] == 0
  }

  // A payload of a given type with a given count. A string ends with its first zero; a string array
  // has as many zeros as strings, and ends with one of them.
  predicate IsPayload(format: nat, count: nat, p: bytes) {
    && p != []
    && match format
       case 1 => |p| == 1
       case 2 => |p| == count
       case 3 => |p| == 2 * count
       case 4 => |p| == 4 * count
       case 5 => |p| == 8 * count
       case 6 => count == 1 && Zeroes(p) == {|p| - 1}
       case 7 => |p| == count
       case 8 => |p| - 1 in Zeroes(p) && |Zeroes(p)| == count
       case 9 => |p| - 1 in Zeroes(p) && |Zeroes(p)| == count
       case _ => false
  }

  // A region trailer is an index entry: tag 62, type 7, a negative offset, count 16.
  predicate IsTrailer(p: bytes) {
    |p| >= 16 && p[..8] == [0, 0, 0, 62, 0, 0, 0, 7] && p[12..16] == [0, 0, 0, 16]
  }

  // The number of entries in the region: the offset is that of an index in front of the store, of 16
  // bytes for each entry, as a negative 32-bit number.
  function RegionEntries(p: bytes): nat
    requires |p| >= 12
  {
    -(NumberAt(p, 8, 4) as int) % 0x1_0000_0000 / 16
  }

  // Where data of a type may be: 16-bit numbers at even offsets, 32-bit and 64-bit numbers at multiples
  // of 4 and 8, everything else anywhere
  predicate OnBoundary(format: nat, offset: nat) {
    && (format == 3 ==> offset % 2 == 0) && (format == 4 ==> offset % 4 == 0) && (format == 5 ==> offset % 8 == 0)
  }

  predicate ByteAligned(format: nat) {
    format != 3 && format != 4 && format != 5
  }

  // The first such place that is not in front of end
  ghost predicate IsNextPlace(format: nat, end: nat, offset: nat) {
    && end <= offset && OnBoundary(format, offset)
    && forall earlier: nat :: end <= earlier < offset ==> !OnBoundary(format, earlier)
  }

  // ----- headers

  datatype IndexEntry = IndexEntry(tag: nat, format: nat, offset: nat, count: nat)

  // Four numbers of four bytes each, behind the 16 bytes of the preamble
  function EntryAt(s: bytes, i: nat): IndexEntry
    requires 16 * i + 32 <= |s|
  {
    var at := 16 + 16 * i;
    IndexEntry(NumberAt(s, at, 4), NumberAt(s, at + 4, 4), NumberAt(s, at + 8, 4), NumberAt(s, at + 12, 4))
  }

  function EntryCount(s: bytes): nat
    requires |s| >= 16
  {
    NumberAt(s, 8, 4)
  }

  function StoreSize(s: bytes): nat
    requires |s| >= 16
  {
    NumberAt(s, 12, 4)
  }

  // The end of the store
  function EndOfHeader(s: bytes): nat
    requires |s| >= 16
  {
    16 + 16 * EntryCount(s) + StoreSize(s)
  }

  // Where the next part starts: right behind a main header, and behind a signature header at the next
  // multiple of 8.
  predicate StartsNext(s: bytes, at: nat, isMain: bool, next: nat)
    requires |s| >= 16
  {
    var end := EndOfHeader(s);
    if isMain then next == end else (at + next) % 8 == 0 && end <= next < end + 8
  }

  // Entry i has the payload p in the store.
  predicate HasPayload(s: bytes, isMain: bool, i: nat, p: bytes)
    requires |s| >= 16 && EndOfHeader(s) <= |s| && i < EntryCount(s)
  {
    var e, store := EntryAt(s, i), 16 + 16 * EntryCount(s);
    && e.offset + |p| <= StoreSize(s) && s[store + e.offset..store + e.offset + |p|] == p
    && IsPayload(e.format, e.count, p)
    && (!isMain && e.tag == 62 ==> IsTrailer(p))
  }

  // The bytes s, found at an offset of a file, are a header whose entries have these payloads, and the
  // next part starts behind it.
  ghost predicate IsHeader(s: bytes, at: nat, isMain: bool, payloads: seq<bytes>, next: nat) {
    && |s| >= 16 && s[..3] == [0x8e, 0xad, 0xe8]
    && StartsNext(s, at, isMain, next) && next <= |s|
    && |payloads| == EntryCount(s)
    && (forall i :: 0 <= i < |payloads| ==> HasPayload(s, isMain, i, payloads[i]))
    && (forall i, j :: 0 <= i < j < |payloads| ==>
          || EntryAt(s, i).offset + |payloads[i]| <= EntryAt(s, j).offset
          || EntryAt(s, j).offset + |payloads[j]| <= EntryAt(s, i).offset)
  }

  // ----- digests in hexadecimal

  function HexCharacter(d: nat): byte
    requires d < 16
  {
    "0123456789abcdef"[d] as int
  }

  function HexEncode(b: bytes): (s: bytes)
    ensures |s| == 2 * |b|
  {
    if b == [] then [] else [HexCharacter(b[0] / 16), HexCharacter(b[0] % 16)] + HexEncode(b[1..])
  }

  // Capital letters A to F as small ones
  function SmallLetters(s: bytes): (small: bytes)
    ensures |small| == |s|
  {
    seq(|s|, i requires 0 <= i < |s| => if 'A' as int <= s[i] <= 'F' as int then s[i] + 32 else s[i])
  }

  // A string with a digest in hexadecimal, in letters of either case
  predicate Spells(p: bytes, digest: bytes) {
    p != [] && SmallLetters(p[..|p| - 1]) == HexEncode(digest)
  }
}
