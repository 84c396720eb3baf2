// Files that show what the laws leave open: one that meets everything the signing laws ask for,
// one that loses a signature, one whose signature header is not packed, and one whose main header
// is not written as it was read.
module Examples {
  import opened Bits
  import opened DynamicArrays
  import opened EditorRuns
  import opened Editing
  import opened FileRuns
  import opened Formats
  import opened HeaderMaps
  import opened MapRuns
  import opened Multimaps
  import opened Headers
  import opened Layouts
  import opened WireFormat
  import opened Progress
  import opened RpmFiles
  import opened HeaderLaws
  import opened FileLaws
  import opened SignedFiles
  import opened Signing
  import opened Words

  // ----- signature headers of four entries

  const TRAILER_OF_FOUR: bytes := [0, 0, 0, 0x3e, 0, 0, 0, 7, 0xff, 0xff, 0xff, 0xc0, 0, 0, 0, 16]

  lemma WordOfFour(a: byte, b: byte, c: byte, d: byte)
    ensures WordOf([a, b, c, d]) == 0x100_0000 * a + 0x1_0000 * b + 0x100 * c + d
  {
    var w := [a, b, c, d];
    assert w[..2] == [a, b] && w[2..] == [c, d];
  }

  lemma TrailerOfFour(payload: bytes)
    requires payload == TRAILER_OF_FOUR
    ensures TrailerWordsOk(payload) && RegionCount(payload) == 4
  {
    assert payload[..4] == [0, 0, 0, 0x3e] && payload[4..8] == [0, 0, 0, 7];
    assert payload[8..12] == [0xff, 0xff, 0xff, 0xc0] && payload[12..16] == [0, 0, 0, 16];
    WordOfFour(0, 0, 0, 0x3e);
    WordOfFour(0, 0, 0, 7);
    WordOfFour(0xff, 0xff, 0xff, 0xc0);
    WordOfFour(0, 0, 0, 16);
  }

  // Two BINARY entries behind trailer and size, the first of them after a gap in the data
  datatype TwoEntries = TwoEntries(gap: nat, first: u32, a: bytes, second: u32, b: bytes) {
    predicate Valid() {
      && gap < 100 && 0 < |a| < 100 && 0 < |b| < 100
      && TAG_SIG_SIZE < first < second && first != TAG_SHA1_HEADER && first != TAG_SHA256_HEADER
      && second != TAG_SHA1_HEADER && second != TAG_SHA256_HEADER
      && (first == TAG_SIG_MD5 || second == TAG_MD5)
    }

    function End(): nat {
      4 + gap + |a| + |b|
    }

    function Entries(): (entries: seq<Entry>)
      requires Valid()
      ensures |entries| == 4
    {
      [Entry(TAG_HEADER_SIGNATURES, FORMAT_BINARY, End(), 16, TRAILER_OF_FOUR),
       Entry(TAG_SIG_SIZE, FORMAT_INT32, 0, 1, Zeros(4)),
       Entry(first, FORMAT_BINARY, 4 + gap, |a|, a),
       Entry(second, FORMAT_BINARY, 4 + gap + |a|, |b|, b)]
    }

    function Signatures(): Header
      requires Valid()
    {
      Header(false, HEADER_MAGIC, 1, Zeros(4), 4, End() + 16, Entries(), 4, Some(4))
    }
  }

  lemma Indices(two: TwoEntries, entries: seq<Entry>, t: u32)
    requires two.Valid() && entries == two.Entries()
    ensures IndexOf(entries, t) ==
            if t == TAG_HEADER_SIGNATURES then 0 else if t == TAG_SIG_SIZE then 1
            else if t == two.first then 2 else if t == two.second then 3 else -1
  {
    IndexOfIs(entries, t,
              if t == TAG_HEADER_SIGNATURES then 0 else if t == TAG_SIG_SIZE then 1
              else if t == two.first then 2 else if t == two.second then 3 else -1);
  }

  lemma EndOfData(two: TwoEntries, entries: seq<Entry>)
    requires two.Valid() && entries == two.Entries()
    ensures MaxEnd(Pieces(entries)) == two.End() + 16
  {
    var i := MaxEndIsReached(Pieces(entries));
    assert Pieces(entries)[0].End() == two.End() + 16;
  }

  lemma SpanOfData(two: TwoEntries, entries: seq<Entry>)
    requires two.Valid() && entries == two.Entries()
    ensures Span(entries, 4) == 48 + |two.a| + |two.b|
  {
    assert Span(entries, 4) == Span(entries, 3) + |two.b| + 7 && Span(entries, 3) == Span(entries, 2) + |two.a| + 7;
    assert Span(entries, 2) == Span(entries, 1) + 11 && Span(entries, 1) == Span(entries, 0) + 23;
  }

  lemma SignaturesAreWellFormed(two: TwoEntries, h: Header)
    requires two.Valid() && h == two.Signatures()
    ensures WellFormedHeader(h) && !h.isMain
  {
    hide TrailerWordsOk, RegionCount, MaxEnd;
    TrailerOfFour(h.entries[0].payload);
    EndOfData(two, h.entries);
  }

  lemma CountIsFour(two: TwoEntries, entries: seq<Entry>)
    requires two.Valid() && entries == two.Entries()
    ensures SignedCount(entries, false) == Some(4)
  {
    hide TrailerWordsOk, RegionCount;
    TrailerOfFour(entries[0].payload);
    var t := LastTrailer(entries, 4);
    assert entries[0].tag == TAG_HEADER_SIGNATURES;
    assert t == 0;
  }

  lemma Finds(two: TwoEntries, entries: seq<Entry>)
    requires two.Valid() && entries == two.Entries()
    ensures Find(entries, TAG_SIG_SIZE).Some? && IsInt32(Find(entries, TAG_SIG_SIZE).value)
    ensures Find(entries, TAG_SHA1_HEADER).None? && Find(entries, TAG_SHA256_HEADER).None?
    ensures Find(entries, TAG_MD5).Some? || Find(entries, TAG_SIG_MD5).Some?
  {
    hide IndexOf;
    Indices(two, entries, TAG_SIG_SIZE);
    Indices(two, entries, TAG_SHA1_HEADER);
    Indices(two, entries, TAG_SHA256_HEADER);
    Indices(two, entries, TAG_MD5);
    Indices(two, entries, TAG_SIG_MD5);
  }

  lemma EntriesAscend(two: TwoEntries, entries: seq<Entry>)
    requires two.Valid() && entries == two.Entries()
    ensures Ascending(entries)
  {
  }

  lemma HoldsReservation(two: TwoEntries, h: Header)
    requires two.Valid() && h.entries == two.Entries() && HasReservation(h)
    ensures FairReservation(h) && Reservation(h).format == FORMAT_BINARY
  {
    hide IndexOf;
    Indices(two, h.entries, TAG_RESERVED_SPACE);
  }

  lemma SignaturesHold(two: TwoEntries, h: Header, packet: bytes)
    requires two.Valid() && h.entries == two.Entries() && !h.isMain && |packet| < 1000 && 4 <= h.capacity
    ensures TrailerHasItsSize(h) && (HasReservation(h) ==> FairReservation(h))
    ensures ReadyForSignature(h, RSA, |packet|) && SigningSurvives(h, RSA, packet)
  {
    hide IndexOf, MaxEnd, Span, RegionCount, TrailerWordsOk, SigningSurvives, FairReservation, Reservation;
    hide HitsNeighbour, Ascending;
    Indices(two, h.entries, TAG_HEADER_SIGNATURES);
    Indices(two, h.entries, TAG_RSA_HEADER);
    EndOfData(two, h.entries);
    SpanOfData(two, h.entries);
    TrailerOfFour(h.entries[0].payload);
    EntriesAscend(two, h.entries);
    LostWhenSorted(h, RSA, packet);
    if HasReservation(h) {
      HoldsReservation(two, h);
    }
    PlainSurvives(h, RSA, packet);
  }

  // ----- files with a given signature header, and a main header without entries

  function EmptyMain(size: u32): Header {
    Header(true, HEADER_MAGIC, 1, Zeros(4), 0, size, [], 0, None)
  }

  function FileOf(h: Header, size: u32): RpmFile {
    RpmFile(Lead(LEAD_MAGIC, 3, 0, 0, 1, Zeros(66), 1, 5, Zeros(16)), h, EmptyMain(size), [], 0)
  }

  // The bytes of the file; the store of its main header holds what no entry claims.
  function BytesOf(h: Header, store: bytes, payload: bytes): bytes
    requires |store| < U32_LIMIT
  {
    PrintedFile(FileOf(h, |store|), store + payload)
  }

  // A signature header that the parser accepts and that passes its checks
  ghost predicate Acceptable(h: Header) {
    && WellFormedHeader(h) && !h.isMain && SignedCount(h.entries, false) == Some(|h.entries|)
    && SizeEntry(h).Some? && IsInt32(SizeEntry(h).value) && Md5Entry(h).Some?
    && Find(h.entries, TAG_SHA1_HEADER).None? && Find(h.entries, TAG_SHA256_HEADER).None?
  }

  lemma SignaturesAreAcceptable(two: TwoEntries, h: Header)
    requires two.Valid() && h == two.Signatures()
    ensures Acceptable(h)
  {
    hide TwoEntries.Entries, WellFormedHeader, SignedCount, Find, IsInt32;
    SignaturesAreWellFormed(two, h);
    CountIsFour(two, h.entries);
    Finds(two, h.entries);
  }

  lemma EmptyMainIsRead(store: bytes, payload: bytes, at: nat, grow: Growth)
    requires |store| < U32_LIMIT
    ensures var h, s := EmptyMain(|store|), PrintedHeader(EmptyMain(|store|)) + (store + payload);
            && |PrintedHeader(h)| == 16 && |s| >= 16 + |store| && HeaderEnd(s) == 16 + |store|
            && AcceptsHeader(s, at, true) && ParsedHeader(s, true, grow) == h
            && s[..HeaderEnd(s)] == PrintedHeader(h) + store
  {
    hide WordBytes, WordOf;
    var h, n := EmptyMain(|store|), |store|;
    var s := PrintedHeader(h) + (store + payload);
    assert IndexBytes([]) == [] && DataBytes([]) == [];
    WordRoundTrip(0);
    WordRoundTrip(n);
    assert s[8..12] == WordBytes(0) && s[12..16] == WordBytes(n);
    assert s[4..8] == Zeros(4) && s[..3] == HEADER_MAGIC;
    assert FilledAll(StoreOf(s), IndexIn(s)) == [];
  }

  // What the parser makes of the file
  lemma FileIsRead(h: Header, store: bytes, payload: bytes, grow: Growth)
    requires WellFormedHeader(h) && !h.isMain && |store| < U32_LIMIT
    ensures var s := BytesOf(h, store, payload);
            && AcceptsHeaders(s)
            && var f := ParsedFile(s, grow);
               && f.lead == FileOf(h, |store|).lead && f.signatureHeader == Reparsed(h, grow)
               && f.mainHeader == EmptyMain(|store|)
               && f.digested == PrintedHeader(EmptyMain(|store|)) + store
  {
    hide PrintedHeader, WellFormedHeader, ParsedLead, ParsedHeader, AcceptsHeader, HeaderEnd, MainStart, PrintedHeaders;
    hide SignedCount, SizeEntry, Md5Entry, Find, Reparsed, EmptyMain, PrintedFile;
    var f, s := FileOf(h, |store|), BytesOf(h, store, payload);
    PrintedFront(f, store + payload, grow);
    EmptyMainIsRead(store, payload, MainStart(s), grow);
    assert s[MainStart(s)..PayloadStart(s)] == s[MainStart(s)..][..HeaderEnd(s[MainStart(s)..])];
  }

  lemma FileIsAccepted(h: Header, store: bytes, payload: bytes, hashes: Hashes, grow: Growth)
    requires Acceptable(h) && |store| < U32_LIMIT
    ensures AcceptsFile(BytesOf(h, store, payload), hashes, grow)
  {
    hide PrintedHeader, ParsedFile, AcceptsHeaders, AppendedCapacity, SignedCount, IndexOf, Find, WellFormedHeader;
    hide IsInt32;
    FileIsRead(h, store, payload, grow);
    assert Find([], TAG_RPMFORMAT) == None by { NothingFound(TAG_RPMFORMAT); }
  }

  lemma NothingFound(t: u32)
    ensures Find([], t) == None
  {
  }

  // A file with nothing in the store of its main header is ready to be signed.
  lemma FileIsReady(two: TwoEntries, payload: bytes, key: PrivateKey, packet: bytes, hashes: Hashes, grow: Growth)
    requires two.Valid() && key.keyType.RSA? && 0 < |packet| < 1000
    ensures Ready(BytesOf(two.Signatures(), [], payload), key, (k, digested) => Some(packet), hashes, grow)
  {
    hide TwoEntries.Entries, AcceptsFile, PrintedHeader, ParsedFile, AcceptsHeaders, ReadyForSignature, Reparsed;
    hide BytesOf, SigningSurvives, HasReservation, FairReservation, TrailerHasItsSize, Acceptable;
    SignaturesAreAcceptable(two, two.Signatures());
    SignaturesAreWellFormed(two, two.Signatures());
    FileIsRead(two.Signatures(), [], payload, grow);
    FileIsAccepted(two.Signatures(), [], payload, hashes, grow);
    ReparsedParts(two.Signatures(), grow);
    SignaturesHold(two, Reparsed(two.Signatures(), grow), packet);
    assert PrintedHeader(EmptyMain(0)) + [] == PrintedHeader(EmptyMain(0));
  }

  lemma ReparsedParts(h: Header, grow: Growth)
    ensures var h' := Reparsed(h, grow);
            h'.entries == h.entries && h'.isMain == h.isMain && h'.capacity == AppendedCapacity(|h.entries|, grow)
  {
  }

  // ----- four files

  // A region trailer, a size, an MD5 sum and reserved space
  const RESERVED: TwoEntries := TwoEntries(0, TAG_SIG_MD5, Zeros(16), TAG_RESERVED_SPACE, Zeros(16))

  // A file can be signed by any signer whose signature takes one byte.
  lemma SmallFileIsReady(payload: bytes, key: PrivateKey, b: byte, hashes: Hashes, grow: Growth)
    requires key.keyType.RSA?
    ensures RESERVED.Valid()
    ensures Ready(BytesOf(RESERVED.Signatures(), [], payload), key, (k, digested) => Some([b]), hashes, grow)
  {
    hide BytesOf, Ready;
    FileIsReady(RESERVED, payload, key, [b], hashes, grow);
  }

  // A signature of one byte, in front of the MD5 sum
  const UNRESERVED: TwoEntries := TwoEntries(0, TAG_RSA_HEADER, [1], TAG_MD5, Zeros(16))

  // Go doubles the capacity of a short slice that it has to move.
  predicate Doubles(grow: Growth) {
    grow(1) == 1 && grow(2) == 2 && grow(3) == 4
  }

  lemma CapacityOfFour(grow: Growth)
    requires Doubles(grow)
    ensures AppendedCapacity(4, grow) == 4
  {
    assert AppendedCapacity(1, grow) == 1;
    assert AppendedCapacity(2, grow) == 2;
    assert AppendedCapacity(3, grow) == 4;
  }

  lemma UnreservedLoses(h: Header)
    requires h.entries == UNRESERVED.Entries() && !h.isMain && h.capacity == 4
    ensures SignatureIsLost(h, RSA, [2, 3])
    ensures ItemOf(h, TAG_RSA_HEADER) == Some(Item(FORMAT_BINARY, 1, [1]))
  {
    hide IndexOf, LastByEnd, Ascending, SignatureIsLost, HitsNeighbour;
    forall t: u32 | t in DeletedTags(RSA) + {TAG_RESERVED_SPACE} ensures IndexOf(h.entries, t) < 0 {
      Indices(UNRESERVED, h.entries, t);
    }
    EntriesAscend(UNRESERVED, h.entries);
    LostWhenSorted(h, RSA, [2, 3]);
    Indices(UNRESERVED, h.entries, TAG_RSA_HEADER);
    Indices(UNRESERVED, h.entries, TAG_HEADER_SIGNATURES);
    LastIsMd5(h.entries);
  }

  lemma LastIsMd5(entries: seq<Entry>)
    requires entries == UNRESERVED.Entries()
    ensures LastByEnd(entries, 0, 4) == 3
  {
    assert entries[3].EndOffset() == 21 && entries[2].EndOffset() == 5 && entries[1].EndOffset() == 4;
  }

  // A file without reserved space that is accepted, signed with a longer signature, and accepted
  // again, with the signature it had before
  lemma AcceptedFileLosesSignature(payload: bytes, key: PrivateKey, hashes: Hashes, grow: Growth)
    requires key.keyType.RSA? && Doubles(grow)
    ensures UNRESERVED.Valid()
    ensures var s, signer: Signer := BytesOf(UNRESERVED.Signatures(), [], payload), (k, digested) => Some([2, 3]);
            && Ready(s, key, signer, hashes, grow)
            && var out := SignedBytes(s, key, signer, hashes, grow);
               && AcceptsFile(out, hashes, grow)
               && ItemOf(ParsedFile(out, grow).signatureHeader, TAG_RSA_HEADER) == Some(Item(FORMAT_BINARY, 1, [1]))
  {
    hide BytesOf, TwoEntries.Entries, AcceptsFile, ParsedFile, AcceptsHeaders, Reparsed, SignatureIsLost, ItemOf;
    hide HasRoom, PrintedHeader, SignedBytes, SignedHeader, CanSign, Count, CountAfter;
    var s, signer: Signer := BytesOf(UNRESERVED.Signatures(), [], payload), (k, digested) => Some([2, 3]);
    FileIsReady(UNRESERVED, payload, key, [2, 3], hashes, grow);
    SignaturesAreAcceptable(UNRESERVED, UNRESERVED.Signatures());
    FileIsRead(UNRESERVED.Signatures(), [], payload, grow);
    ReparsedParts(UNRESERVED.Signatures(), grow);
    CapacityOfFour(grow);
    UnreservedLoses(ParsedFile(s, grow).signatureHeader);
    SignedIsSettled(s, key, signer, hashes, grow);
  }

  // Four bytes that no entry claims in front of the MD5 sum
  const GAPPED: TwoEntries := TwoEntries(4, TAG_SIG_MD5, Zeros(16), TAG_RESERVED_SPACE, Zeros(16))

  // An accepted file whose signature header is laid out anew by the first edit, although the
  // parser has changed nothing
  lemma AcceptedFileIsNotPacked(payload: bytes, hashes: Hashes, grow: Growth)
    ensures GAPPED.Valid() && AcceptsFile(BytesOf(GAPPED.Signatures(), [], payload), hashes, grow)
    ensures !Packed(ParsedFile(BytesOf(GAPPED.Signatures(), [], payload), grow).signatureHeader)
  {
    hide BytesOf, AcceptsFile, ParsedFile, AcceptsHeaders, Reparsed, Packed;
    SignaturesAreAcceptable(GAPPED, GAPPED.Signatures());
    FileIsRead(GAPPED.Signatures(), [], payload, grow);
    FileIsAccepted(GAPPED.Signatures(), [], payload, hashes, grow);
    ReparsedParts(GAPPED.Signatures(), grow);
    GappedIsNotPacked(ParsedFile(BytesOf(GAPPED.Signatures(), [], payload), grow).signatureHeader);
  }

  lemma GappedIsNotPacked(h: Header)
    requires h.entries == GAPPED.Entries() && !h.isMain
    ensures !Packed(h)
  {
    hide Packed, IndexOf, Span;
    SpanOfData(GAPPED, h.entries);
    Indices(GAPPED, h.entries, TAG_HEADER_SIGNATURES);
    PackedIffTight(h);
    assert EndBefore(h.entries, 0, 2) == 4;
    assert OnBoundary(FORMAT_BINARY, 4) && !Follows(h.entries[2], 4);
  }

  // An accepted file whose main header has a byte in its store that no entry claims: the bytes
  // that a signature is checked against are not those that were signed.
  lemma AcceptedStoreIsNotTight(b: byte, payload: bytes, hashes: Hashes, grow: Growth)
    ensures RESERVED.Valid() && AcceptsFile(BytesOf(RESERVED.Signatures(), [b], payload), hashes, grow)
    ensures var f := ParsedFile(BytesOf(RESERVED.Signatures(), [b], payload), grow);
            PrintedHeader(f.mainHeader) != f.digested
  {
    hide BytesOf, TwoEntries.Entries, AcceptsFile, ParsedFile, AcceptsHeaders, Reparsed, PrintedHeader;
    SignaturesAreAcceptable(RESERVED, RESERVED.Signatures());
    FileIsRead(RESERVED.Signatures(), [b], payload, grow);
    FileIsAccepted(RESERVED.Signatures(), [b], payload, hashes, grow);
    assert |PrintedHeader(EmptyMain(1)) + [b]| == |PrintedHeader(EmptyMain(1))| + 1;
  }

  // ----- a file with both digests

  // A region trailer, a size, and two strings with the tags of the digests
  function DigestEntries(a: bytes, b: bytes): (entries: seq<Entry>)
    requires |a| < 1000 && |b| < 1000
    ensures |entries| == 4
  {
    [Entry(62, FORMAT_BINARY, 4 + |a| + |b|, 16, TRAILER_OF_FOUR),
     Entry(257, FORMAT_INT32, 0, 1, Zeros(4)),
     Entry(269, FORMAT_STRING, 4, 1, a),
     Entry(273, FORMAT_STRING, 4 + |a|, 1, b)]
  }

  function Digests(a: bytes, b: bytes): Header
    requires |a| < 1000 && |b| < 1000
  {
    Header(false, HEADER_MAGIC, 1, Zeros(4), 4, 20 + |a| + |b|, DigestEntries(a, b), 4, Some(4))
  }

  lemma {:induction false} NoZeroInHex(b: bytes)
    ensures forall i :: 0 <= i < 2 * |b| ==> HexEncode(b)[i] != 0
    ensures SmallLetters(HexEncode(b)) == HexEncode(b)
    decreases |b|
  {
    if b != [] {
      hide HexCharacter;
      HexCharacterIs(b[0] / 16);
      HexCharacterIs(b[0] % 16);
      NoZeroInHex(b[1..]);
    }
  }

  // The string that spells a digest
  function Spelled(digest: bytes): (s: bytes)
    ensures |s| == 2 * |digest| + 1
  {
    HexEncode(digest) + [0]
  }

  lemma SpelledIsString(e: Entry, digest: bytes)
    requires |digest| < 100 && e.payload == Spelled(digest) && e.format == FORMAT_STRING && e.count == 1
    ensures ShapeOk(e) && SpellsDigest(e, digest)
  {
    hide ShapeOk, SmallLetters;
    NoZeroInHex(digest);
    assert e.payload[..|e.payload| - 1] == HexEncode(digest);
    OneZero(e.payload);
    ShapeIsPayload(e);
  }

  lemma DigestsAreWellFormed(h: Header, d: bytes, d': bytes)
    requires |d| < 100 && |d'| < 100 && h == Digests(Spelled(d), Spelled(d'))
    ensures WellFormedHeader(h) && !h.isMain
    ensures SpellsDigest(h.entries[2], d) && SpellsDigest(h.entries[3], d')
  {
    hide TrailerWordsOk, RegionCount, MaxEnd, Spelled, SpellsDigest, StringSize;
    TrailerOfFour(h.entries[0].payload);
    SpelledIsString(h.entries[2], d);
    SpelledIsString(h.entries[3], d');
    var i := MaxEndIsReached(Pieces(h.entries));
    assert Pieces(h.entries)[0].End() == h.storeSize;
  }

  lemma DigestCount(entries: seq<Entry>, a: bytes, b: bytes)
    requires |a| < 1000 && |b| < 1000 && entries == DigestEntries(a, b)
    ensures SignedCount(entries, false) == Some(4)
  {
    hide TrailerWordsOk, RegionCount;
    TrailerOfFour(entries[0].payload);
    var t := LastTrailer(entries, 4);
    assert entries[0].tag == TAG_HEADER_SIGNATURES;
    assert t == 0;
  }

  // Whatever the hash functions are, a file is accepted that carries both digests of its main header.
  lemma AcceptedFileHasDigests(payload: bytes, hashes: Hashes, grow: Growth)
    requires forall b :: |hashes.sha1(b)| < 100 && |hashes.sha256(b)| < 100
    ensures var digested := PrintedHeader(EmptyMain(0));
            var h := Digests(Spelled(hashes.sha1(digested)), Spelled(hashes.sha256(digested)));
            AcceptsFile(BytesOf(h, [], payload), hashes, grow)
  {
    hide BytesOf, PrintedHeader, ParsedFile, AcceptsHeaders, AppendedCapacity, SignedCount, WellFormedHeader, Spelled;
    hide SpellsDigest, Digests, DigestEntries, EmptyMain;
    var digested := PrintedHeader(EmptyMain(0));
    var d, d' := hashes.sha1(digested), hashes.sha256(digested);
    var h := Digests(Spelled(d), Spelled(d'));
    DigestsAreWellFormed(h, d, d');
    FileIsRead(h, [], payload, grow);
    assert digested + [] == digested;
    DigestsPass(ParsedFile(BytesOf(h, [], payload), grow), d, d', hashes, grow);
    AcceptedIffPasses(BytesOf(h, [], payload), hashes, grow);
  }

  lemma DigestsPass(f: RpmFile, d: bytes, d': bytes, hashes: Hashes, grow: Growth)
    requires |d| < 100 && |d'| < 100 && d == hashes.sha1(f.digested) && d' == hashes.sha256(f.digested)
    requires f.signatureHeader == Reparsed(Digests(Spelled(d), Spelled(d')), grow)
    requires f.lead.packageType <= 1 && f.lead.major <= 4 && f.mainHeader == EmptyMain(0)
    ensures Passes(f, hashes)
  {
    hide AppendedCapacity, SignedCount, Spelled, SpellsDigest, WellFormedHeader;
    var h := Digests(Spelled(d), Spelled(d'));
    DigestsAreWellFormed(h, d, d');
    DigestCount(h.entries, Spelled(d), Spelled(d'));
    var entries := f.signatureHeader.entries;
    assert IsFirst(entries, 257, 1) && IsInt32Entry(entries[1]);
    assert entries[2].tag == 269 && entries[3].tag == 273;
  }
}
