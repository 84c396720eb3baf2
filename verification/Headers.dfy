// The header structure of common/rpmparser.go as a value: index entries with their payloads,
// and the few tags and formats the code treats specially.
module Headers {
  import opened Bits
  import opened DynamicArrays

  datatype Option<+T> = None | Some(value: T)

  // format types
  const FORMAT_NULL: u32 := 0
  const FORMAT_CHAR: u32 := 1
  const FORMAT_INT8: u32 := 2
  const FORMAT_INT16: u32 := 3
  const FORMAT_INT32: u32 := 4
  const FORMAT_INT64: u32 := 5
  const FORMAT_STRING: u32 := 6
  const FORMAT_BINARY: u32 := 7
  const FORMAT_STRING_ARRAY: u32 := 8
  const FORMAT_I18N_STRING_ARRAY: u32 := 9

  // signature header tags
  const TAG_HEADER_SIGNATURES: u32 := 62
  const TAG_SIG_SIZE: u32 := 257
  const TAG_SIG_MD5: u32 := 261
  const TAG_DSA_HEADER: u32 := 267
  const TAG_RSA_HEADER: u32 := 268
  const TAG_SHA1_HEADER: u32 := 269
  const TAG_SHA256_HEADER: u32 := 273
  const TAG_OPENPGP: u32 := 278
  const TAG_SIZE: u32 := 1000
  const TAG_PGP: u32 := 1002
  const TAG_MD5: u32 := 1004
  const TAG_GPG: u32 := 1005
  const TAG_PGP5: u32 := 1006
  const TAG_RESERVED_SPACE: u32 := 1008

  // main header tags
  const TAG_HEADER_IMMUTABLE: u32 := 63
  const TAG_RPMFORMAT: u32 := 5114

  predicate KnownFormat(format: u32) {
    FORMAT_CHAR <= format <= FORMAT_I18N_STRING_ARRAY
  }

  // The source panics on a format that is not known.
  function GetRequiredAlignment(format: u32): (alignment: nat)
    ensures alignment in {1, 2, 4, 8}
  {
    if format == FORMAT_INT16 then 2
    else if format == FORMAT_INT32 then 4
    else if format == FORMAT_INT64 then 8
    else 1
  }

  datatype Entry = Entry(tag: u32, format: u32, offset: u32, count: u32, payload: bytes) {
    function Alignment(): nat {
      GetRequiredAlignment(format)
    }

    function EndOffset(): u32 {
      U32(offset + U32(|payload|))
    }

    function AsPiece(): Piece {
      Piece(offset, payload)
    }
  }

  // capacity is the capacity of the slice behind entries; signedCount is the entry count of
  // the signed region, if the header has one.
  datatype Header = Header(
    isMain: bool,
    magic: bytes,
    version: byte,
    reserved: bytes,
    indexEntryCount: u32,
    storeSize: u32,
    entries: seq<Entry>,
    capacity: nat,
    signedCount: Option<u32>)

  // FindIndexEntry: the index of the first entry with a tag, or -1
  function IndexOf(entries: seq<Entry>, tag: u32): (i: int)
    ensures -1 <= i < |entries|
    ensures i >= 0 ==> entries[i].tag == tag
    ensures forall j :: 0 <= j < (if i < 0 then |entries| else i) ==> entries[j].tag != tag
  {
    if entries == [] then -1
    else if entries[0].tag == tag then 0
    else
      var i := IndexOf(entries[1..], tag);
      if i < 0 then -1 else i + 1
  }

  // The postcondition of IndexOf determines it.
  lemma IndexOfIs(entries: seq<Entry>, tag: u32, i: int)
    requires -1 <= i < |entries|
    requires i >= 0 ==> entries[i].tag == tag
    requires forall j :: 0 <= j < (if i < 0 then |entries| else i) ==> entries[j].tag != tag
    ensures IndexOf(entries, tag) == i
  {
  }

  function Find(entries: seq<Entry>, tag: u32): (e: Option<Entry>)
    ensures e.Some? ==> e.value in entries && e.value.tag == tag
    ensures e.None? <==> forall x :: x in entries ==> x.tag != tag
  {
    var i := IndexOf(entries, tag);
    if i < 0 then None else Some(entries[i])
  }

  function TrailerTag(isMain: bool): u32 {
    if isMain then TAG_HEADER_IMMUTABLE else TAG_HEADER_SIGNATURES
  }

  function TrailerIndex(h: Header): (i: int)
    ensures -1 <= i < |h.entries|
  {
    IndexOf(h.entries, TrailerTag(h.isMain))
  }

  function Pieces(entries: seq<Entry>): (pieces: seq<Piece>)
    ensures |pieces| == |entries|
  {
    seq(|entries|, i requires 0 <= i < |entries| => entries[i].AsPiece())
  }
}
