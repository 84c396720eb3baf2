// The binary form of a header (common/rpmparser.go:907-990 and 1140-1307): what the parser
// accepts and what it makes of it, and what the writer emits.
module Formats {
  import opened Bits
  import opened Utils
  import opened Words
  import opened DynamicArrays
  import opened Headers
  import opened WireFormat
  import opened Editing
  import opened EditorRuns
  import opened Allocator

  const HEADER_MAGIC: bytes := [0x8e, 0xad, 0xe8]

  // ----- payloads

  // The length of the null-terminated string at the start of s
  function StringSize(s: bytes): (n: Option<nat>)
    ensures n.Some? ==> 0 < n.value <= |s|
  {
    if s == [] then None
    else if s[0] == 0 then Some(1)
    else
      var n := StringSize(s[1..]);
      if n.None? then None else Some(n.value + 1)
  }

  // The length of the first count null-terminated strings
  function StringsSize(s: bytes, count: nat): (n: Option<nat>)
    ensures n.Some? ==> n.value <= |s|
    decreases count
  {
    if count == 0 then Some(0)
    else
      var first := StringSize(s);
      if first.None? then None
      else
        var n := StringsSize(s[first.value..], count - 1);
        if n.None? then None else Some(first.value + n.value)
  }

  function FixedSize(s: bytes, n: nat): Option<nat> {
    if n <= |s| then Some(n) else None
  }

  // How many bytes of s populatePayload takes: the sizes of numbers are 32-bit products. NULL
  // entries take none, which the parser does not accept.
  function PayloadSize(s: bytes, format: u32, count: u32): (n: Option<nat>)
    ensures n.Some? ==> n.value <= |s|
  {
    if format == FORMAT_CHAR then FixedSize(s, 1)
    else if format == FORMAT_INT8 || format == FORMAT_BINARY then FixedSize(s, count)
    else if format == FORMAT_INT16 then FixedSize(s, U32(count * 2))
    else if format == FORMAT_INT32 then FixedSize(s, U32(count * 4))
    else if format == FORMAT_INT64 then FixedSize(s, U32(count * 8))
    else if format == FORMAT_STRING then StringSize(s)
    else if format == FORMAT_STRING_ARRAY || format == FORMAT_I18N_STRING_ARRAY then StringsSize(s, count)
    else None
  }

  // parseNullTerminatedStrings finds one string for each zero.
  function ZeroCount(p: bytes): nat {
    if p == [] then 0 else ZeroCount(p[..|p| - 1]) + if p[|p| - 1] == 0 then 1 else 0
  }

  // PayloadAsPrettyString does not panic. The parser calls it on every entry it has read, for a
  // log message.
  predicate PrettyPrints(format: u32, count: u32, p: bytes) {
    if format == FORMAT_INT16 then count * 2 <= |p|
    else if format == FORMAT_INT32 then count * 4 <= |p|
    else if format == FORMAT_INT64 then count * 8 <= |p|
    else if format == FORMAT_STRING || format == FORMAT_STRING_ARRAY || format == FORMAT_I18N_STRING_ARRAY
    then ZeroCount(p) == count
    else KnownFormat(format)
  }

  // An entry whose payload is what its format and count ask for
  predicate ShapeOk(e: Entry) {
    && e.payload != []
    && PayloadSize(e.payload, e.format, e.count) == Some(|e.payload|)
    && PrettyPrints(e.format, e.count, e.payload)
  }

  lemma {:induction false} StringSizeIsLocal(s: bytes, s': bytes, n: nat)
    requires n <= |s| && n <= |s'| && s[..n] == s'[..n]
    ensures StringSize(s) == Some(n) <==> StringSize(s') == Some(n)
    decreases n
  {
    if n > 0 {
      assert s[0] == s[..n][0] && s'[0] == s'[..n][0];
      if n > 1 {
        assert s[1..][..n - 1] == s[..n][1..] && s'[1..][..n - 1] == s'[..n][1..];
        StringSizeIsLocal(s[1..], s'[1..], n - 1);
      }
    }
  }

  lemma SamePieces(s: bytes, s': bytes, m: nat, n: nat)
    requires m <= n <= |s| && n <= |s'| && s[..n] == s'[..n]
    ensures s[..m] == s'[..m] && s[m..][..n - m] == s'[m..][..n - m]
  {
    assert s[..m] == s[..n][..m] && s'[..m] == s'[..n][..m];
    assert s[m..][..n - m] == s[..n][m..] && s'[m..][..n - m] == s'[..n][m..];
  }

  lemma {:induction false} StringsSizeIsLocal(s: bytes, s': bytes, count: nat, n: nat)
    requires n <= |s| && n <= |s'| && s[..n] == s'[..n]
    requires StringsSize(s, count) == Some(n)
    ensures StringsSize(s', count) == Some(n)
    decreases count
  {
    if count > 0 {
      hide StringSize;
      var m := StringSize(s).value;
      SamePieces(s, s', m, n);
      StringSizeIsLocal(s, s', m);
      StringsSizeIsLocal(s[m..], s'[m..], count - 1, n - m);
    }
  }

  // What is read depends on the bytes that are read, and on nothing behind them.
  lemma PayloadSizeIsLocal(s: bytes, s': bytes, format: u32, count: u32, n: nat)
    requires n <= |s| && n <= |s'| && s[..n] == s'[..n]
    requires PayloadSize(s, format, count) == Some(n)
    ensures PayloadSize(s', format, count) == Some(n)
  {
    if format == FORMAT_STRING {
      StringSizeIsLocal(s, s', n);
    } else if format == FORMAT_STRING_ARRAY || format == FORMAT_I18N_STRING_ARRAY {
      StringsSizeIsLocal(s, s', count, n);
    }
  }

  lemma {:induction false} ZeroCountOfSum(p: bytes, q: bytes)
    ensures ZeroCount(p + q) == ZeroCount(p) + ZeroCount(q)
    decreases |q|
  {
    if q == [] {
      assert p + q == p;
    } else {
      assert (p + q)[..|p + q| - 1] == p + q[..|q| - 1];
      ZeroCountOfSum(p, q[..|q| - 1]);
    }
  }

  lemma {:induction false} StringHasOneZero(s: bytes, n: nat)
    requires StringSize(s) == Some(n)
    ensures ZeroCount(s[..n]) == 1
    decreases n
  {
    if s[0] == 0 {
      assert s[..1][..0] == [];
    } else {
      StringHasOneZero(s[1..], n - 1);
      assert s[..n] == [s[0]] + s[1..][..n - 1];
      ZeroCountOfSum([s[0]], s[1..][..n - 1]);
      assert [s[0]][..0] == [];
    }
  }

  lemma TwoPieces(s: bytes, m: nat, n: nat)
    requires m <= n <= |s|
    ensures s[..n] == s[..m] + s[m..][..n - m]
  {
  }

  lemma {:induction false} StringsHaveZeros(s: bytes, count: nat, n: nat)
    requires StringsSize(s, count) == Some(n)
    ensures ZeroCount(s[..n]) == count
    decreases count
  {
    if count == 0 {
      assert s[..n] == [];
    } else {
      hide ZeroCount, StringSize;
      var m := StringSize(s).value;
      StringHasOneZero(s, m);
      StringsHaveZeros(s[m..], count - 1, n - m);
      TwoPieces(s, m, n);
      ZeroCountOfSum(s[..m], s[m..][..n - m]);
    }
  }

  lemma {:induction false} StringEndsWithZero(s: bytes, n: nat)
    requires StringSize(s) == Some(n)
    ensures s[n - 1] == 0
    decreases n
  {
    if s[0] != 0 {
      StringEndsWithZero(s[1..], n - 1);
    }
  }

  lemma {:induction false} StringsEndWithZero(s: bytes, count: nat, n: nat)
    requires StringsSize(s, count) == Some(n) && n > 0
    ensures s[n - 1] == 0
    decreases count
  {
    var m := StringSize(s).value;
    StringEndsWithZero(s, m);
    if m < n {
      StringsEndWithZero(s[m..], count - 1, n - m);
    }
  }

  // Of what can be read, pretty-printing fails exactly on a STRING whose count is not 1 and on
  // numbers whose total size is beyond 32 bits.
  lemma ReadPayloadsPrettyPrint(s: bytes, format: u32, count: u32, n: nat)
    requires PayloadSize(s, format, count) == Some(n)
    ensures PrettyPrints(format, count, s[..n]) <==>
              && (format == FORMAT_STRING ==> count == 1)
              && (format == FORMAT_INT16 ==> count * 2 < U32_LIMIT)
              && (format == FORMAT_INT32 ==> count * 4 < U32_LIMIT)
              && (format == FORMAT_INT64 ==> count * 8 < U32_LIMIT)
  {
    if format == FORMAT_STRING {
      StringHasOneZero(s, n);
    } else if format == FORMAT_STRING_ARRAY || format == FORMAT_I18N_STRING_ARRAY {
      StringsHaveZeros(s, count, n);
    }
  }

  // A string is read whatever its count, and then cannot be printed unless that is 1.
  lemma ReadDoesNotPrint()
    ensures PayloadSize([0], FORMAT_STRING, 2) == Some(1) && !PrettyPrints(FORMAT_STRING, 2, [0])
  {
    assert StringSize([0]) == Some(1);
    ReadPayloadsPrettyPrint([0], FORMAT_STRING, 2, 1);
    assert [0][..1] == [0];
  }

  // ----- the data store

  // The entry has a payload at its offset in the store that the parser accepts.
  predicate Readable(store: bytes, e: Entry, isMain: bool) {
    && e.offset <= |store|
    && PayloadSize(store[e.offset..], e.format, e.count).Some?
    && var payload := PayloadIn(store, e);
       && payload != [] && PrettyPrints(e.format, e.count, payload)
       && (!isMain && e.tag == TAG_HEADER_SIGNATURES ==> TrailerWordsOk(payload))
  }

  function PayloadIn(store: bytes, e: Entry): bytes
    requires e.offset <= |store| && PayloadSize(store[e.offset..], e.format, e.count).Some?
  {
    store[e.offset..][..PayloadSize(store[e.offset..], e.format, e.count).value]
  }

  function Filled(store: bytes, e: Entry): Entry {
    if e.offset <= |store| && PayloadSize(store[e.offset..], e.format, e.count).Some?
    then e.(payload := PayloadIn(store, e)) else e
  }

  function FilledAll(store: bytes, entries: seq<Entry>): (filled: seq<Entry>)
    ensures |filled| == |entries|
  {
    seq(|entries|, i requires 0 <= i < |entries| => Filled(store, entries[i]))
  }

  ghost predicate AllApart(entries: seq<Entry>) {
    forall i, j :: 0 <= i < j < |entries| ==> Apart(entries[i], entries[j])
  }

  // Which index entries the parser accepts with a store, stated without the order of its scan
  ghost predicate AcceptsStore(store: bytes, entries: seq<Entry>, isMain: bool) {
    && (forall i :: 0 <= i < |entries| ==> Readable(store, entries[i], isMain))
    && AllApart(FilledAll(store, entries))
  }

  // The region trailer that is scanned last settles the signed region.
  function LastTrailer(entries: seq<Entry>, n: nat): (i: int)
    requires n <= |entries|
    ensures -1 <= i < n && (i >= 0 ==> entries[i].tag == TAG_HEADER_SIGNATURES)
    ensures forall j :: 0 <= j < n && entries[j].tag == TAG_HEADER_SIGNATURES ==>
              i >= 0 && entries[j].offset <= entries[i].offset
  {
    if n == 0 then -1
    else
      var i := LastTrailer(entries, n - 1);
      if entries[n - 1].tag == TAG_HEADER_SIGNATURES && (i < 0 || entries[n - 1].offset > entries[i].offset)
      then n - 1 else i
  }

  function SignedCount(entries: seq<Entry>, isMain: bool): Option<u32> {
    var t := LastTrailer(entries, |entries|);
    if isMain || t < 0 || |entries[t].payload| < 12 then None
    else Some(RegionCount(entries[t].payload))
  }

  // ----- index entries

  function EntryBytes(e: Entry): (b: bytes)
    ensures |b| == 16
  {
    WordBytes(e.tag) + WordBytes(e.format) + WordBytes(e.offset) + WordBytes(e.count)
  }

  function EntryOf(b: bytes): Entry
    requires |b| == 16
  {
    Entry(WordOf(b[..4]), WordOf(b[4..8]), WordOf(b[8..12]), WordOf(b[12..16]), [])
  }

  function IndexBytes(entries: seq<Entry>): (b: bytes)
    ensures |b| == 16 * |entries|
  {
    if entries == [] then []
    else
      var last := |entries| - 1;
      IndexBytes(entries[..last]) + EntryBytes(entries[last])
  }

  function IndexOfBytes(b: bytes, n: nat): (entries: seq<Entry>)
    requires |b| == 16 * n
    ensures |entries| == n
  {
    seq(n, i requires 0 <= i < n => EntryOf(b[16 * i..16 * i + 16]))
  }

  lemma EntryRoundTrip(e: Entry)
    ensures EntryOf(EntryBytes(e)) == e.(payload := [])
  {
    hide WordBytes, WordOf;
    var b := EntryBytes(e);
    assert b[..4] == WordBytes(e.tag) && b[4..8] == WordBytes(e.format);
    assert b[8..12] == WordBytes(e.offset) && b[12..16] == WordBytes(e.count);
    WordRoundTrip(e.tag);
    WordRoundTrip(e.format);
    WordRoundTrip(e.offset);
    WordRoundTrip(e.count);
  }

  lemma EntryBytesRoundTrip(b: bytes)
    requires |b| == 16
    ensures EntryBytes(EntryOf(b)) == b
  {
    hide WordBytes, WordOf;
    WordIsInjective(b[..4]);
    WordIsInjective(b[4..8]);
    WordIsInjective(b[8..12]);
    WordIsInjective(b[12..16]);
  }

  lemma {:induction false} IndexBytesAt(entries: seq<Entry>, i: nat)
    requires i < |entries|
    ensures IndexBytes(entries)[16 * i..16 * i + 16] == EntryBytes(entries[i])
  {
    hide EntryBytes;
    var last := |entries| - 1;
    var front := IndexBytes(entries[..last]);
    assert IndexBytes(entries) == front + EntryBytes(entries[last]);
    if i < last {
      IndexBytesAt(entries[..last], i);
      assert (front + EntryBytes(entries[last]))[16 * i..16 * i + 16] == front[16 * i..16 * i + 16];
    }
  }

  function WithoutPayloads(entries: seq<Entry>): seq<Entry> {
    seq(|entries|, i requires 0 <= i < |entries| => entries[i].(payload := []))
  }

  lemma IndexRoundTrip(entries: seq<Entry>)
    ensures IndexOfBytes(IndexBytes(entries), |entries|) == WithoutPayloads(entries)
  {
    hide EntryBytes, EntryOf, IndexBytes, IndexOfBytes;
    var read := IndexOfBytes(IndexBytes(entries), |entries|);
    forall i | 0 <= i < |entries| ensures read[i] == entries[i].(payload := []) {
      EntryRead(IndexBytes(entries), |entries|, i);
      IndexBytesAt(entries, i);
      EntryRoundTrip(entries[i]);
    }
  }

  lemma EntryRead(b: bytes, n: nat, i: nat)
    requires |b| == 16 * n && i < n
    ensures IndexOfBytes(b, n)[i] == EntryOf(b[16 * i..16 * i + 16])
  {
    hide EntryOf;
  }

  lemma {:induction false} IndexBytesRoundTrip(b: bytes, entries: seq<Entry>)
    requires |b| == 16 * |entries|
    requires forall i :: 0 <= i < |entries| ==> EntryBytes(entries[i]) == b[16 * i..16 * i + 16]
    ensures IndexBytes(entries) == b
    decreases |entries|
  {
    hide EntryBytes;
    if entries != [] {
      var last := |entries| - 1;
      var front := b[..16 * last];
      forall i | 0 <= i < last ensures EntryBytes(entries[..last][i]) == front[16 * i..16 * i + 16] {
        assert front[16 * i..16 * i + 16] == b[16 * i..16 * i + 16];
      }
      IndexBytesRoundTrip(front, entries[..last]);
      assert b == front + b[16 * last..16 * last + 16];
    }
  }

  // ----- the header

  // The capacity of a slice that n elements were appended to, one by one
  function AppendedCapacity(n: nat, grow: Growth): (c: nat)
    ensures n <= c
  {
    if n == 0 then 0
    else
      var c := AppendedCapacity(n - 1, grow);
      if n <= c then c else Max(n, grow(n))
  }

  // The sizes a header declares
  function EntryCountOf(s: bytes): nat
    requires |s| >= 16
  {
    WordOf(s[8..12])
  }

  function StoreSizeOf(s: bytes): nat
    requires |s| >= 16
  {
    WordOf(s[12..16])
  }

  function StoreStart(s: bytes): nat
    requires |s| >= 16
  {
    16 + 16 * EntryCountOf(s)
  }

  function HeaderEnd(s: bytes): nat
    requires |s| >= 16
  {
    StoreStart(s) + StoreSizeOf(s)
  }

  // The number of bytes up to where the next header starts: only the header in front of
  // another, the signature header, is padded.
  function HeaderLength(s: bytes, at: nat, isMain: bool): nat
    requires |s| >= 16
  {
    HeaderEnd(s) + if isMain then 0 else CalcAlignmentByteCount(at + HeaderEnd(s), 8)
  }

  function StoreOf(s: bytes): bytes
    requires |s| >= 16 && HeaderEnd(s) <= |s|
  {
    s[StoreStart(s)..HeaderEnd(s)]
  }

  function IndexIn(s: bytes): (entries: seq<Entry>)
    requires |s| >= 16 && HeaderEnd(s) <= |s|
    ensures |entries| == EntryCountOf(s)
  {
    IndexOfBytes(s[16..StoreStart(s)], EntryCountOf(s))
  }

  // The parser accepts the bytes s, found at an offset of the input, as a header.
  ghost predicate AcceptsHeader(s: bytes, at: nat, isMain: bool) {
    && |s| >= 16 && s[..3] == HEADER_MAGIC
    && HeaderLength(s, at, isMain) <= |s|
    && AcceptsStore(StoreOf(s), IndexIn(s), isMain)
  }

  function ParsedHeader(s: bytes, isMain: bool, grow: Growth): Header
    requires |s| >= 16 && HeaderEnd(s) <= |s|
  {
    var entries := FilledAll(StoreOf(s), IndexIn(s));
    Header(isMain, s[..3], s[3], s[4..8], EntryCountOf(s), StoreSizeOf(s), entries,
           AppendedCapacity(|entries|, grow), SignedCount(entries, isMain))
  }

  // The data store that Write makes of the payloads
  function DataBytes(entries: seq<Entry>): bytes {
    Image(NonEmpty(Pieces(entries)))
  }

  lemma AllDataIsWritten(entries: seq<Entry>)
    requires HasPayloads(entries)
    ensures DataBytes(entries) == Image(Pieces(entries))
  {
    AllNonEmpty(Pieces(entries));
  }

  // What Write emits. The counts are the header's own, the store ends with the last payload.
  function PrintedHeader(h: Header): bytes {
    h.magic + [h.version] + h.reserved + WordBytes(h.indexEntryCount) + WordBytes(h.storeSize)
    + IndexBytes(h.entries) + DataBytes(h.entries)
  }

  // Write fails on misaligned data.
  predicate Aligned(entries: seq<Entry>) {
    forall i :: 0 <= i < |entries| ==> OnBoundary(entries[i].format, entries[i].offset)
  }

  // A header that reads back as what was written
  ghost predicate WellFormedHeader(h: Header) {
    && h.magic == HEADER_MAGIC && |h.reserved| == 4
    && h.indexEntryCount == |h.entries|
    && h.storeSize == MaxEnd(Pieces(h.entries))
    && (forall i :: 0 <= i < |h.entries| ==> ShapeOk(h.entries[i]))
    && AllApart(h.entries)
    && (forall i :: 0 <= i < |h.entries| && !h.isMain && h.entries[i].tag == TAG_HEADER_SIGNATURES ==>
          TrailerWordsOk(h.entries[i].payload))
  }

  lemma ApartIsDisjoint(entries: seq<Entry>)
    requires AllApart(entries)
    ensures PairwiseDisjoint(Pieces(entries))
  {
    var pieces := Pieces(entries);
    forall i, j | 0 <= i < j < |pieces| ensures pieces[i].DisjointFrom(pieces[j]) {
      assert Apart(entries[i], entries[j]);
    }
  }

  // Each payload is read back from the image.
  lemma ReadsBack(h: Header, i: nat)
    requires WellFormedHeader(h) && i < |h.entries|
    ensures var store, raw := Image(Pieces(h.entries)), h.entries[i].(payload := []);
            Readable(store, raw, h.isMain) && Filled(store, raw) == h.entries[i]
  {
    hide Image, PayloadSize, PrettyPrints, MaxEnd, TrailerWordsOk;
    var pieces, e := Pieces(h.entries), h.entries[i];
    var store := Image(pieces);
    ApartIsDisjoint(h.entries);
    ImageHoldsPieces(pieces);
    assert HoldsPiece(store, pieces[i]);
    assert store[e.offset..][..|e.payload|] == e.payload;
    assert ShapeOk(e);
    PayloadSizeIsLocal(e.payload, store[e.offset..], e.format, e.count, |e.payload|);
  }

  lemma StoreReadsBack(h: Header)
    requires WellFormedHeader(h)
    ensures var store, raw := Image(Pieces(h.entries)), WithoutPayloads(h.entries);
            AcceptsStore(store, raw, h.isMain) && FilledAll(store, raw) == h.entries
  {
    hide Image, Readable, Filled, WellFormedHeader;
    var store, raw := Image(Pieces(h.entries)), WithoutPayloads(h.entries);
    forall i | 0 <= i < |raw| ensures Readable(store, raw[i], h.isMain) && Filled(store, raw[i]) == h.entries[i] {
      ReadsBack(h, i);
    }
    assert FilledAll(store, raw) == h.entries;
    assert AllApart(h.entries) by { WellFormedIsApart(h); }
  }

  lemma WellFormedIsApart(h: Header)
    requires WellFormedHeader(h)
    ensures AllApart(h.entries)
  {
  }

  // The index is where the parser looks for it, whatever the payloads.
  lemma PrintedIndex(h: Header, rest: bytes)
    requires h.magic == HEADER_MAGIC && |h.reserved| == 4 && h.indexEntryCount == |h.entries|
    ensures var s := PrintedHeader(h) + rest;
            && |s| >= 16 && EntryCountOf(s) == |h.entries| && StoreStart(s) <= |s|
            && s[16..StoreStart(s)] == IndexBytes(h.entries)
  {
    hide WordBytes, WordOf, IndexBytes, DataBytes;
    var s := PrintedHeader(h) + rest;
    WordRoundTrip(h.indexEntryCount);
    assert s[8..12] == WordBytes(h.indexEntryCount);
  }

  lemma PrintedParts(h: Header, rest: bytes)
    requires WellFormedHeader(h)
    ensures var s := PrintedHeader(h) + rest;
            && |s| >= 16 && s[..3] == h.magic && s[3] == h.version && s[4..8] == h.reserved
            && EntryCountOf(s) == h.indexEntryCount && StoreSizeOf(s) == h.storeSize
            && HeaderEnd(s) == |PrintedHeader(h)|
            && s[16..StoreStart(s)] == IndexBytes(h.entries)
            && StoreOf(s) == Image(Pieces(h.entries))
  {
    hide WordBytes, WordOf, IndexBytes, MaxEnd, DataBytes;
    AllDataIsWritten(h.entries);
    var s := PrintedHeader(h) + rest;
    WordRoundTrip(h.indexEntryCount);
    WordRoundTrip(h.storeSize);
    assert s[8..12] == WordBytes(h.indexEntryCount);
    assert s[12..16] == WordBytes(h.storeSize);
    assert |Image(Pieces(h.entries))| == h.storeSize;
  }

  // What the parser makes of a header that was written: the same, except that the capacity of
  // its slice is new and the signed region is the one its trailer states.
  function Reparsed(h: Header, grow: Growth): Header {
    h.(capacity := AppendedCapacity(|h.entries|, grow), signedCount := SignedCount(h.entries, h.isMain))
  }

  // Print, then parse: every well-formed header is read back as it was written.
  lemma PrintThenParse(h: Header, at: nat, rest: bytes, grow: Growth)
    requires WellFormedHeader(h)
    requires var s := PrintedHeader(h) + rest; |s| >= 16 ==> HeaderLength(s, at, h.isMain) <= |s|
    ensures AcceptsHeader(PrintedHeader(h) + rest, at, h.isMain)
    ensures ParsedHeader(PrintedHeader(h) + rest, h.isMain, grow) == Reparsed(h, grow)
  {
    hide PrintedHeader, WellFormedHeader, Image, IndexBytes, IndexOfBytes, AcceptsStore, AppendedCapacity, SignedCount;
    hide StoreOf, EntryCountOf, StoreSizeOf, CalcAlignmentByteCount, FilledAll;
    PrintedParts(h, rest);
    StoreReadsBack(h);
    IndexRoundTrip(h.entries);
    WellFormedCount(h);
  }

  lemma WellFormedCount(h: Header)
    requires WellFormedHeader(h)
    ensures h.indexEntryCount == |h.entries| && h.magic == HEADER_MAGIC
  {
  }

  // ----- what acceptance means

  lemma AcceptedEntry(store: bytes, entries: seq<Entry>, isMain: bool, i: nat)
    requires AcceptsStore(store, entries, isMain) && i < |entries|
    ensures var e := FilledAll(store, entries)[i];
            && e == entries[i].(payload := e.payload)
            && HoldsPiece(store, e.AsPiece()) && ShapeOk(e)
            && (!isMain && e.tag == TAG_HEADER_SIGNATURES ==> TrailerWordsOk(e.payload))
  {
    hide PayloadSize, PrettyPrints, TrailerWordsOk;
    var raw, e := entries[i], Filled(store, entries[i]);
    var n := |e.payload|;
    assert Readable(store, raw, isMain);
    assert store[raw.offset..][..n] == store[raw.offset..raw.offset + n] == e.payload;
    PayloadSizeIsLocal(store[raw.offset..], e.payload, e.format, e.count, n);
  }

  // Every accepted header has disjoint payloads that are not empty, lie inside the store, are
  // the bytes of the store at their offsets, and have the shape their types ask for.
  lemma AcceptedHeader(s: bytes, at: nat, isMain: bool, grow: Growth)
    requires AcceptsHeader(s, at, isMain)
    ensures var h := ParsedHeader(s, isMain, grow);
            && h.indexEntryCount == |h.entries| && h.storeSize == |StoreOf(s)|
            && PairwiseDisjoint(Pieces(h.entries)) && AllApart(h.entries)
            && MaxEnd(Pieces(h.entries)) <= h.storeSize
            && forall i :: 0 <= i < |h.entries| ==>
                 HoldsPiece(StoreOf(s), Pieces(h.entries)[i]) && ShapeOk(h.entries[i])
                 && (!isMain && h.entries[i].tag == TAG_HEADER_SIGNATURES ==> TrailerWordsOk(h.entries[i].payload))
  {
    hide IndexIn, StoreOf, ShapeOk, AppendedCapacity, SignedCount, TrailerWordsOk, MaxEnd;
    var h, store, pieces := ParsedHeader(s, isMain, grow), StoreOf(s), Pieces(ParsedHeader(s, isMain, grow).entries);
    forall i | 0 <= i < |h.entries|
      ensures HoldsPiece(store, pieces[i]) && ShapeOk(h.entries[i])
      ensures !isMain && h.entries[i].tag == TAG_HEADER_SIGNATURES ==> TrailerWordsOk(h.entries[i].payload)
    {
      AcceptedEntry(store, IndexIn(s), isMain, i);
    }
    ApartIsDisjoint(h.entries);
    StoreLength(s);
    if pieces != [] {
      var i := MaxEndIsReached(pieces);
    } else {
      assert MaxEnd(pieces) == 0 by { NoPiecesNoEnd(pieces); }
    }
  }

  lemma StoreLength(s: bytes)
    requires |s| >= 16 && HeaderEnd(s) <= |s|
    ensures |StoreOf(s)| == StoreSizeOf(s)
  {
  }

  lemma NoPiecesNoEnd(pieces: seq<Piece>)
    requires pieces == []
    ensures MaxEnd(pieces) == 0
  {
  }

  // The store ends with the last payload, and has zeros where there is none.
  ghost predicate TightStore(store: bytes, entries: seq<Entry>) {
    && |store| == MaxEnd(Pieces(entries))
    && forall k :: 0 <= k < |store| && !Covered(Pieces(entries), k) ==> store[k] == 0
  }

  lemma StoreIsImage(store: bytes, entries: seq<Entry>)
    requires PairwiseDisjoint(Pieces(entries))
    requires forall i :: 0 <= i < |entries| ==> HoldsPiece(store, Pieces(entries)[i])
    ensures Image(Pieces(entries)) == store <==> TightStore(store, entries)
  {
    hide MaxEnd, ByteAt, Covered, HoldsPiece, PairwiseDisjoint;
    ImageHoldsPieces(Pieces(entries));
    if TightStore(store, entries) {
      ImageIsUnique(Pieces(entries), store);
    }
  }

  lemma IndexIsPrinted(s: bytes)
    requires |s| >= 16 && HeaderEnd(s) <= |s|
    ensures IndexBytes(FilledAll(StoreOf(s), IndexIn(s))) == s[16..StoreStart(s)]
  {
    hide StoreOf, EntryCountOf, EntryOf, EntryBytes, Filled;
    var b, entries, store := s[16..StoreStart(s)], IndexIn(s), StoreOf(s);
    forall i | 0 <= i < |entries|
      ensures EntryBytes(FilledAll(store, entries)[i]) == b[16 * i..16 * i + 16]
    {
      FilledEntryBytes(store, entries[i]);
      EntryBytesRoundTrip(b[16 * i..16 * i + 16]);
    }
    IndexBytesRoundTrip(b, FilledAll(store, entries));
  }

  lemma FilledEntryBytes(store: bytes, e: Entry)
    ensures EntryBytes(Filled(store, e)) == EntryBytes(e)
  {
    hide PayloadSize, WordBytes;
  }

  lemma PreambleIsPrinted(s: bytes, isMain: bool, grow: Growth)
    requires |s| >= 16 && HeaderEnd(s) <= |s|
    ensures var h := ParsedHeader(s, isMain, grow);
            h.magic + [h.version] + h.reserved + WordBytes(h.indexEntryCount) + WordBytes(h.storeSize) == s[..16]
  {
    hide WordBytes, WordOf, FilledAll, StoreOf, IndexIn, AppendedCapacity, SignedCount;
    WordIsInjective(s[8..12]);
    WordIsInjective(s[12..16]);
  }

  lemma AcceptedPayloads(s: bytes, at: nat, isMain: bool, grow: Growth)
    requires AcceptsHeader(s, at, isMain)
    ensures HasPayloads(ParsedHeader(s, isMain, grow).entries)
  {
    hide AcceptsHeader, HoldsPiece, MaxEnd, AllApart, PairwiseDisjoint, FilledAll, SignedCount, AppendedCapacity;
    AcceptedHeader(s, at, isMain, grow);
  }

  // Parse, then print: the bytes come back exactly when nothing was in the store but payloads.
  lemma ParseThenPrint(s: bytes, at: nat, isMain: bool, grow: Growth)
    requires AcceptsHeader(s, at, isMain)
    ensures PrintedHeader(ParsedHeader(s, isMain, grow)) == s[..HeaderEnd(s)] <==>
            TightStore(StoreOf(s), ParsedHeader(s, isMain, grow).entries)
  {
    hide WordBytes, TightStore, Image, IndexBytes, FilledAll, AppendedCapacity, SignedCount, IndexIn, AcceptsHeader;
    hide DataBytes;
    hide HoldsPiece, ShapeOk, MaxEnd, AllApart, PairwiseDisjoint, TrailerWordsOk;
    assert |s| >= 16 && HeaderEnd(s) <= |s| by { AcceptedIsLongEnough(s, at, isMain); }
    var h := ParsedHeader(s, isMain, grow);
    AcceptedHeader(s, at, isMain, grow);
    StoreIsImage(StoreOf(s), h.entries);
    AcceptedPayloads(s, at, isMain, grow);
    AllDataIsWritten(h.entries);
    IndexIsPrinted(s);
    PreambleIsPrinted(s, isMain, grow);
    var front, image := s[..16] + s[16..StoreStart(s)], Image(Pieces(h.entries));
    assert PrintedHeader(h) == front + image;
    assert s[..HeaderEnd(s)] == front + StoreOf(s);
    SameFront(front, image, StoreOf(s));
  }

  lemma SameFront(front: bytes, a: bytes, b: bytes)
    ensures front + a == front + b <==> a == b
  {
    if front + a == front + b {
      assert a == (front + a)[|front|..] == (front + b)[|front|..] == b;
    }
  }

  lemma AcceptedIsLongEnough(s: bytes, at: nat, isMain: bool)
    requires AcceptsHeader(s, at, isMain)
    ensures |s| >= 16 && HeaderEnd(s) <= HeaderLength(s, at, isMain) <= |s|
  {
  }

  // An accepted header with a tight store is well-formed, so it survives being written.
  lemma AcceptedIsWellFormed(s: bytes, at: nat, isMain: bool, grow: Growth)
    requires AcceptsHeader(s, at, isMain)
    requires MaxEnd(Pieces(ParsedHeader(s, isMain, grow).entries)) == StoreSizeOf(s)
    ensures WellFormedHeader(ParsedHeader(s, isMain, grow))
  {
    hide ShapeOk, AppendedCapacity, SignedCount, TrailerWordsOk, MaxEnd, IndexIn, FilledAll, StoreOf;
    AcceptedHeader(s, at, isMain, grow);
  }

  // ----- locality

  // The same header is read from any input that starts with the same bytes.
  lemma ParsingIsLocal(s: bytes, s': bytes, at: nat, isMain: bool, grow: Growth)
    requires AcceptsHeader(s, at, isMain)
    requires var n := HeaderLength(s, at, isMain); n <= |s'| && s[..n] == s'[..n]
    ensures AcceptsHeader(s', at, isMain) && HeaderLength(s', at, isMain) == HeaderLength(s, at, isMain)
    ensures HeaderEnd(s') == HeaderEnd(s)
    ensures ParsedHeader(s', isMain, grow) == ParsedHeader(s, isMain, grow)
  {
    hide AcceptsStore, FilledAll, AppendedCapacity, SignedCount, WordOf, IndexOfBytes, CalcAlignmentByteCount;
    var n := HeaderLength(s, at, isMain);
    SamePrefix(s, s', n, 8, 12);
    SamePrefix(s, s', n, 12, 16);
    SamePrefix(s, s', n, 0, 3);
    SamePrefix(s, s', n, 3, 4);
    SamePrefix(s, s', n, 4, 8);
    SamePrefix(s, s', n, 16, StoreStart(s));
    SamePrefix(s, s', n, StoreStart(s), HeaderEnd(s));
    assert s[3..4][0] == s[3] && s'[3..4][0] == s'[3];
  }

  lemma SamePrefix(s: bytes, s': bytes, n: nat, i: nat, j: nat)
    requires i <= j <= n <= |s| && n <= |s'| && s[..n] == s'[..n]
    ensures s[i..j] == s'[i..j]
  {
    assert s[i..j] == s[..n][i..j];
    assert s'[i..j] == s'[..n][i..j];
  }
}
