// What a write through a stale pointer can hit: the region trailer of an accepted file, whose signed
// form is then not accepted, and the reserved space, which then claims more than there is.
module StrayWrites {
  import opened Bits
  import opened Words
  import opened DynamicArrays
  import opened Headers
  import opened Layouts
  import opened Editing
  import opened HeaderMaps
  import opened Multimaps
  import opened EditorRuns
  import opened MapRuns
  import opened Spaces
  import opened Formats
  import opened RpmFiles
  import opened Signing
  import opened SigningRuns
  import opened SignedShapes
  import opened Progress
  import opened SignedFiles
  import opened Examples

  // ----- a signature written to the trailer

  const TRAILER_OF_FIVE: bytes := [0, 0, 0, 0x3e, 0, 0, 0, 7, 0xff, 0xff, 0xff, 0xb0, 0, 0, 0, 16]

  lemma TrailerOfFive(payload: bytes)
    requires payload == TRAILER_OF_FIVE
    ensures TrailerWordsOk(payload) && RegionCount(payload) == 5
  {
    assert payload[..4] == [0, 0, 0, 0x3e] && payload[4..8] == [0, 0, 0, 7];
    assert payload[8..12] == [0xff, 0xff, 0xff, 0xb0] && payload[12..16] == [0, 0, 0, 16];
    WordOfFour(0, 0, 0, 0x3e);
    WordOfFour(0, 0, 0, 7);
    WordOfFour(0xff, 0xff, 0xff, 0xb0);
    WordOfFour(0, 0, 0, 16);
  }

  // An entry that sorts behind the reservation, then the trailer, then a signature of one byte; the
  // tags do not ascend.
  function UnsortedEntries(): (entries: seq<Entry>)
    ensures |entries| == 5
  {
    [Entry(1012, FORMAT_BINARY, 0, 1, [9]),
     Entry(TAG_HEADER_SIGNATURES, FORMAT_BINARY, 24, 16, TRAILER_OF_FIVE),
     Entry(TAG_RSA_HEADER, FORMAT_BINARY, 1, 1, [1]),
     Entry(TAG_MD5, FORMAT_BINARY, 2, 16, Zeros(16)),
     Entry(TAG_SIG_SIZE, FORMAT_INT32, 20, 1, Zeros(4))]
  }

  function Unsorted(): Header {
    Header(false, HEADER_MAGIC, 1, Zeros(4), 5, 40, UnsortedEntries(), 8, Some(5))
  }

  lemma UnsortedIndices(entries: seq<Entry>, t: u32)
    requires entries == UnsortedEntries()
    ensures IndexOf(entries, t) ==
            if t == 1012 then 0 else if t == TAG_HEADER_SIGNATURES then 1 else if t == TAG_RSA_HEADER then 2
            else if t == TAG_MD5 then 3 else if t == TAG_SIG_SIZE then 4 else -1
  {
    IndexOfIs(entries, t,
              if t == 1012 then 0 else if t == TAG_HEADER_SIGNATURES then 1 else if t == TAG_RSA_HEADER then 2
              else if t == TAG_MD5 then 3 else if t == TAG_SIG_SIZE then 4 else -1);
  }

  lemma UnsortedEnd(entries: seq<Entry>)
    requires entries == UnsortedEntries()
    ensures MaxEnd(Pieces(entries)) == 40 && Span(entries, 5) == 73
  {
    var i := MaxEndIsReached(Pieces(entries));
    assert Pieces(entries)[1].End() == 40;
    assert Span(entries, 5) == Span(entries, 4) + 11 && Span(entries, 4) == Span(entries, 3) + 23;
    assert Span(entries, 3) == Span(entries, 2) + 8 && Span(entries, 2) == Span(entries, 1) + 23;
    assert Span(entries, 1) == Span(entries, 0) + 8;
  }

  lemma UnsortedIsWellFormed(h: Header)
    requires h == Unsorted()
    ensures WellFormedHeader(h)
  {
    hide TrailerWordsOk, RegionCount, MaxEnd;
    TrailerOfFive(h.entries[1].payload);
    UnsortedEnd(h.entries);
  }

  lemma UnsortedCount(entries: seq<Entry>)
    requires entries == UnsortedEntries()
    ensures SignedCount(entries, false) == Some(5)
  {
    hide TrailerWordsOk, RegionCount;
    TrailerOfFive(entries[1].payload);
    var t := LastTrailer(entries, 5);
    assert entries[1].tag == TAG_HEADER_SIGNATURES;
    assert t == 1;
  }

  lemma UnsortedIsAcceptable(h: Header)
    requires h == Unsorted()
    ensures Acceptable(h)
  {
    hide WellFormedHeader, SignedCount, IndexOf;
    UnsortedIsWellFormed(h);
    UnsortedCount(h.entries);
    UnsortedIndices(h.entries, TAG_SIG_SIZE);
    UnsortedIndices(h.entries, TAG_SHA1_HEADER);
    UnsortedIndices(h.entries, TAG_SHA256_HEADER);
    UnsortedIndices(h.entries, TAG_MD5);
  }

  lemma UnsortedLast(entries: seq<Entry>)
    requires entries == UnsortedEntries()
    ensures LastByEnd(entries, 1, 5) == 4
  {
    assert entries[0].EndOffset() == 1 && entries[2].EndOffset() == 2 && entries[3].EndOffset() == 18;
    assert entries[4].EndOffset() == 24;
  }

  // There is nothing to delete, and the packet goes to the trailer.
  lemma UnsortedHitsTrailer(h: Header)
    requires h.entries == UnsortedEntries() && !h.isMain && h.capacity > 5
    ensures Staying(h.entries, RSA) == h.entries
    ensures GoesAstray(h, TAG_RSA_HEADER, [2, 3]) && StruckTag(h.entries, TAG_RSA_HEADER) == TAG_HEADER_SIGNATURES
    ensures HitsNeighbour(h, RSA, [2, 3]) && Neighbour(h, RSA).tag == TAG_HEADER_SIGNATURES
  {
    hide IndexOf, LastByEnd, InsertionPoint, Staying;
    forall t: u32 | t in DeletedTags(RSA) + {TAG_RESERVED_SPACE} ensures IndexOf(h.entries, t) < 0 {
      UnsortedIndices(h.entries, t);
    }
    StayingIsLess(h.entries, RSA);
    UnsortedIndices(h.entries, TAG_RSA_HEADER);
    UnsortedIndices(h.entries, TAG_HEADER_SIGNATURES);
    UnsortedLast(h.entries);
    InsertionPointIs(h.entries, TAG_RESERVED_SPACE, 0);
  }

  lemma UnsortedHasRoom(h: Header)
    requires h.entries == UnsortedEntries() && !h.isMain
    ensures TrailerHasItsSize(h) && !HasReservation(h) && ReadyForSignature(h, RSA, 2)
  {
    hide IndexOf, MaxEnd, Span;
    UnsortedIndices(h.entries, TAG_HEADER_SIGNATURES);
    UnsortedIndices(h.entries, TAG_RESERVED_SPACE);
    UnsortedIndices(h.entries, TAG_RSA_HEADER);
    UnsortedEnd(h.entries);
  }

  lemma UnsortedDoesNotSurvive(h: Header)
    requires HitsNeighbour(h, RSA, [2, 3]) && Neighbour(h, RSA).tag == TAG_HEADER_SIGNATURES
    ensures !SigningSurvives(h, RSA, [2, 3])
  {
    hide ShapeOk, HitsNeighbour, Neighbour, ReservationSurvives, RegionSurvives;
  }

  // After signing, the entry with the packet has the tag of a trailer.
  lemma PacketInTrailer(h: Header, grow: Growth)
    requires h.entries == UnsortedEntries() && !h.isMain && h.capacity > 5 && CanSign(h, RSA, [2, 3], grow)
    ensures var after := SignedHeader(h, RSA, [2, 3], grow).entries;
            && |after| > 2 && after[2].tag == TAG_HEADER_SIGNATURES
            && after[2].format == FORMAT_BINARY && after[2].count == 2
  {
    hide CanRun, Run, GoesAstray, StruckTag, SetOrAdd, HitsNeighbour, Staying, HasData, Roomy, IndexOf;
    UnsortedHitsTrailer(h);
    SigningInTwoSteps(h, RSA, [2, 3], grow);
    forall i | 0 <= i < |DeletionsFor(RSA)| ensures IndexOf(h.entries, DeletionsFor(RSA)[i].tag) < 0 {
      UnsortedIndices(h.entries, DeletionsFor(RSA)[i].tag);
    }
    NothingToDelete(h, DeletionsFor(RSA), grow);
    UnsortedIndices(h.entries, TAG_RSA_HEADER);
    StruckEntry(h, TAG_RSA_HEADER, FORMAT_BINARY, 2, [2, 3], grow);
  }

  lemma ShortTrailerIsNotReadable(store: bytes, e: Entry)
    requires e.tag == TAG_HEADER_SIGNATURES && e.format == FORMAT_BINARY && e.count < 16
    ensures !Readable(store, e, false)
  {
  }

  // A trailer with a count below 16 is refused: its words are not there.
  lemma ShortTrailerIsRefused(h: Header, i: nat, rest: bytes, at: nat)
    requires h.magic == HEADER_MAGIC && |h.reserved| == 4 && h.indexEntryCount == |h.entries| && i < |h.entries|
    requires h.entries[i].tag == TAG_HEADER_SIGNATURES && h.entries[i].format == FORMAT_BINARY
    requires h.entries[i].count < 16
    ensures !AcceptsHeader(PrintedHeader(h) + rest, at, false)
  {
    hide PrintedHeader, IndexOfBytes, HeaderLength, PrettyPrints, EntryCountOf, WordOf;
    var s := PrintedHeader(h) + rest;
    PrintedIndex(h, rest);
    IndexRoundTrip(h.entries);
    if AcceptsHeader(s, at, false) {
      AcceptedIsLongEnough(s, at, false);
      assert IndexIn(s) == WithoutPayloads(h.entries);
      ShortTrailerIsNotReadable(StoreOf(s), IndexIn(s)[i]);
    }
  }

  lemma SignatureIsBehindLead(f: RpmFile, payload: bytes) returns (rest: bytes)
    requires WellFormedLead(f.lead)
    ensures |PrintedFile(f, payload)| >= 96
    ensures PrintedFile(f, payload)[96..] == PrintedHeader(f.signatureHeader) + rest
  {
    hide PrintedHeader, PrintedLead;
    LeadRoundTrip(f.lead, []);
    var lead, sig, s := PrintedLead(f.lead), PrintedHeader(f.signatureHeader), PrintedFile(f, payload);
    assert s[..96 + |sig|] == lead + sig;
    rest := s[96 + |sig|..];
    assert s[96..] == sig + rest;
  }

  // Its trailer does not stand being written, so the signed file is not accepted.
  lemma RuinedTrailer(s: bytes, packet: bytes, hashes: Hashes, grow: Growth, i: nat)
    requires AcceptsFile(s, hashes, grow) && CanSign(ParsedFile(s, grow).signatureHeader, RSA, packet, grow)
    requires var h' := SignedHeader(ParsedFile(s, grow).signatureHeader, RSA, packet, grow);
             && i < |h'.entries| && h'.entries[i].tag == TAG_HEADER_SIGNATURES
             && h'.entries[i].format == FORMAT_BINARY && h'.entries[i].count < 16
    ensures AcceptsHeaders(s) && ParsedFile(s, grow).payloadStart <= |s|
    ensures var f := ParsedFile(s, grow);
            var f' := f.(signatureHeader := SignedHeader(f.signatureHeader, RSA, packet, grow));
            !AcceptsFile(PrintedFile(f', s[f.payloadStart..]), hashes, grow)
  {
    hide AcceptsFile, ParsedFile, CanSign, SignedHeader, PrintedFile, AcceptsHeader, AllOk, SamePreamble;
    hide WellFormedLead;
    assert AcceptsHeaders(s) by { AcceptedHasHeaders(s, hashes, grow); }
    PayloadStartIsInside(s, grow);
    var f := ParsedFile(s, grow);
    var h, h' := f.signatureHeader, SignedHeader(f.signatureHeader, RSA, packet, grow);
    var out := PrintedFile(f.(signatureHeader := h'), s[f.payloadStart..]);
    AcceptedIsFramed(s, hashes, grow);
    SignaturePreamble(s, grow);
    SigningKeepsPreamble(h, RSA, packet, grow);
    PreambleIsKept(h, h');
    SigningKeepsFrame(h, RSA, packet, grow);
    LeadSurvives(s, grow);
    var rest := SignatureIsBehindLead(f.(signatureHeader := h'), s[f.payloadStart..]);
    ShortTrailerIsRefused(h', i, rest, 96);
    if AcceptsFile(out, hashes, grow) {
      AcceptedHasHeaders(out, hashes, grow);
      assert false;
    }
  }

  // An accepted file, with any payload, that is signed without an error if there is room in the
  // slice of its index; what is written then is not accepted.
  lemma AcceptedFileIsRuined(payload: bytes, key: PrivateKey, hashes: Hashes, grow: Growth)
    requires key.keyType.RSA? && AppendedCapacity(5, grow) > 5
    ensures var s, signer: Signer := BytesOf(Unsorted(), [], payload), (k, digested) => Some([2, 3]);
            && AcceptsFile(s, hashes, grow) && AcceptsHeaders(s) && ParsedFile(s, grow).payloadStart <= |s|
            && var f := ParsedFile(s, grow);
               && !SigningSurvives(f.signatureHeader, RSA, [2, 3])
               && CanSignFile(f, key, signer, grow) && SignedFile(f, key, signer, grow).Some?
               && !AcceptsFile(PrintedFile(SignedFile(f, key, signer, grow).value, s[f.payloadStart..]), hashes, grow)
  {
    hide AcceptsFile, ParsedFile, AcceptsHeaders, Acceptable, CanSign, SignedHeader, PrintedFile, BytesOf, Reparsed;
    hide SigningSurvives, ReadyForSignature, HasReservation, FairReservation, TrailerHasItsSize, HitsNeighbour;
    hide Neighbour, AppendedCapacity, Framed, Staying, GoesAstray, StruckTag, IndexOf, InsertionPoint, Space, Fits;
    hide WellFormedHeader;
    var s := BytesOf(Unsorted(), [], payload);
    UnsortedIsAcceptable(Unsorted());
    UnsortedIsWellFormed(Unsorted());
    FileIsRead(Unsorted(), [], payload, grow);
    FileIsAccepted(Unsorted(), [], payload, hashes, grow);
    ReparsedParts(Unsorted(), grow);
    var h := ParsedFile(s, grow).signatureHeader;
    UnsortedHasRoom(h);
    UnsortedHitsTrailer(h);
    UnsortedDoesNotSurvive(h);
    RoomIsEnough(s, RSA, [2, 3], hashes, grow);
    PacketInTrailer(h, grow);
    RuinedTrailer(s, [2, 3], hashes, grow, 2);
  }

  // ----- a count written to the reserved space

  const TRAILER_OF_THREE: bytes := [0, 0, 0, 0x3e, 0, 0, 0, 7, 0xff, 0xff, 0xff, 0xd0, 0, 0, 0, 16]

  lemma TrailerOfThree(payload: bytes)
    requires payload == TRAILER_OF_THREE
    ensures TrailerWordsOk(payload) && RegionCount(payload) == 3
  {
    assert payload[..4] == [0, 0, 0, 0x3e] && payload[4..8] == [0, 0, 0, 7];
    assert payload[8..12] == [0xff, 0xff, 0xff, 0xd0] && payload[12..16] == [0, 0, 0, 16];
    WordOfFour(0, 0, 0, 0x3e);
    WordOfFour(0, 0, 0, 7);
    WordOfFour(0xff, 0xff, 0xff, 0xd0);
    WordOfFour(0, 0, 0, 16);
  }

  // Two entries that sort behind the reservation, which is yet to be made
  function BehindEntries(): (entries: seq<Entry>)
    ensures |entries| == 3
  {
    [Entry(TAG_HEADER_SIGNATURES, FORMAT_BINARY, 2, 16, TRAILER_OF_THREE),
     Entry(1009, FORMAT_BINARY, 0, 1, [1]),
     Entry(1010, FORMAT_BINARY, 1, 1, [1])]
  }

  function Behind(): Header {
    Header(false, HEADER_MAGIC, 1, Zeros(4), 3, 18, BehindEntries(), 8, Some(3))
  }

  // The count does not go with the payload.
  const OVERCOUNTING: Op := SetOp(1009, FORMAT_BINARY, U32_LIMIT - 1, [1, 2])
  const ADDING: Op := SetOp(500, FORMAT_BINARY, 1, [1])

  lemma BehindIndices(entries: seq<Entry>, t: u32)
    requires entries == BehindEntries()
    ensures IndexOf(entries, t) ==
            if t == TAG_HEADER_SIGNATURES then 0 else if t == 1009 then 1 else if t == 1010 then 2 else -1
  {
    IndexOfIs(entries, t,
              if t == TAG_HEADER_SIGNATURES then 0 else if t == 1009 then 1 else if t == 1010 then 2 else -1);
  }

  lemma BehindEnd(entries: seq<Entry>)
    requires entries == BehindEntries()
    ensures MaxEnd(Pieces(entries)) == 18 && Span(entries, 3) == 39
    ensures LastByEnd(entries, 0, 3) == 2
  {
    var i := MaxEndIsReached(Pieces(entries));
    assert Pieces(entries)[0].End() == 18;
    assert Span(entries, 3) == Span(entries, 2) + 8 && Span(entries, 2) == Span(entries, 1) + 8;
    assert Span(entries, 1) == Span(entries, 0) + 23;
    assert entries[1].EndOffset() == 1 && entries[2].EndOffset() == 2;
  }

  lemma BehindIsPacked(h: Header)
    requires h == Behind()
    ensures Packed(h)
  {
    hide IndexOf, MaxEnd, Span, Packed;
    BehindIndices(h.entries, TAG_HEADER_SIGNATURES);
    BehindEnd(h.entries);
    PackedIffTight(h);
    assert EndBefore(h.entries, 0, 1) == 0 && EndBefore(h.entries, 0, 2) == 1 && EndBefore(h.entries, 0, 3) == 2;
    assert Follows(h.entries[1], 0) && Follows(h.entries[2], 1) && Follows(h.entries[0], 2);
  }

  lemma BehindIsSound(h: Header)
    requires h == Behind()
    ensures Sound(h) && Space(h) == 39 && TrailerHasItsSize(h) && CanApply(h, OVERCOUNTING)
  {
    hide IndexOf, MaxEnd, Span, TrailerWordsOk, RegionCount;
    BehindIndices(h.entries, TAG_HEADER_SIGNATURES);
    BehindIndices(h.entries, 1009);
    BehindEnd(h.entries);
    TrailerOfThree(h.entries[0].payload);
    BehindHasRoom(h);
  }

  lemma BehindHasRoom(h: Header)
    requires h == Behind() && Framed(h) && TrailerHasItsSize(h)
    ensures CanSet(h, 1009, FORMAT_BINARY, [1, 2])
  {
    hide IndexOf, MaxEnd, Span, Framed, TrailerHasItsSize, HasData;
    BehindIndices(h.entries, 1009);
    BehindEnd(h.entries);
    SettingNeverPanics(h, 1009, FORMAT_BINARY, [1, 2]);
  }

  lemma OvercountingHits(h: Header)
    requires h == Behind()
    ensures GoesAstray(h, 1009, [1, 2]) && StruckTag(h.entries, 1009) == TAG_RESERVED_SPACE
    ensures !SparesReservation(h, OVERCOUNTING) && !HasReservation(h)
  {
    hide IndexOf, LastByEnd, InsertionPoint;
    BehindIndices(h.entries, TAG_HEADER_SIGNATURES);
    BehindIndices(h.entries, TAG_RESERVED_SPACE);
    BehindIndices(h.entries, 1009);
    BehindEnd(h.entries);
    InsertionPointIs(h.entries, TAG_RESERVED_SPACE, 1);
  }

  // The reservation that was just made gets the count and the payload.
  lemma StruckReservation(h: Header, tag: u32, count: u32, payload: bytes, grow: Growth)
    requires !OwnedByEditor(tag) && TrailerHasItsSize(h) && |payload| + 8206 < U32_LIMIT
    requires GoesAstray(h, tag, payload) && StruckTag(h.entries, tag) == TAG_RESERVED_SPACE
    ensures ItemOf(SetOrAdd(h, tag, FORMAT_BINARY, count, payload, grow), TAG_RESERVED_SPACE) ==
            Some(Item(FORMAT_BINARY, count, payload))
  {
    hide Allocate, SyncLayout, InsertionPoint, NeedsAllocation, IndexOf;
    var i, reached := IndexOf(h.entries, tag), Allocated(h, tag, FORMAT_BINARY, payload, grow);
    AllocationReserves(h, |payload|, FORMAT_BINARY, grow);
    FirstAllocationLaw(h, |payload|, FORMAT_BINARY, grow);
    ReachedEntry(h, tag, FORMAT_BINARY, payload, grow);
    ContentsItems(reached, i, count, payload, TAG_RESERVED_SPACE);
    SyncItems(WithContents(reached, i, count, payload), TAG_RESERVED_SPACE);
  }

  lemma AfterOvercounting(h: Header, grow: Growth)
    requires h == Behind()
    ensures CanApply(h, OVERCOUNTING)
    ensures var h' := Apply(h, OVERCOUNTING, grow);
            && Sound(h') && |h'.entries| <= 5 && Count(h'.entries, 500) == 0
            && ItemOf(h', TAG_RESERVED_SPACE) == Some(Item(FORMAT_BINARY, U32_LIMIT - 1, [1, 2]))
            && IndexOf(h'.entries, TAG_HEADER_SIGNATURES) >= 0
            && MaxEnd(Pieces(h'.entries)) <= Space(h') <= 4158
  {
    hide Sound, CanSet, SetOrAdd, GoesAstray, StruckTag, ItemOf, ItemsWith, MaxEnd, Space, Packed, IndexOf;
    hide PointerGoesStale;
    BehindIsSound(h);
    OvercountingHits(h);
    BehindIndices(h.entries, 500);
    BehindIndices(h.entries, 1009);
    BehindIndices(h.entries, TAG_HEADER_SIGNATURES);
    ApplyIsSound(h, OVERCOUNTING, grow);
    FewEntries(h, OVERCOUNTING, grow);
    StruckReservation(h, 1009, U32_LIMIT - 1, [1, 2], grow);
    SetOrAddItemsWith(h, 1009, FORMAT_BINARY, U32_LIMIT - 1, [1, 2], grow, 500);
    SetOrAddItemsWith(h, 1009, FORMAT_BINARY, U32_LIMIT - 1, [1, 2], grow, TAG_HEADER_SIGNATURES);
    var h' := Apply(h, OVERCOUNTING, grow);
    FirstItem(h.entries, 500);
    FirstItem(h.entries, TAG_HEADER_SIGNATURES);
    FirstItem(h'.entries, TAG_HEADER_SIGNATURES);
    SetOrAddSpace(h, 1009, FORMAT_BINARY, U32_LIMIT - 1, [1, 2], grow);
    ApplyPacks(h, OVERCOUNTING, grow);
    PackedMaxEnd(h');
  }

  // The reserved space is taken at its word.
  lemma AfterAdding(h: Header, grow: Growth)
    requires Sound(h) && |h.entries| <= 5 && Count(h.entries, 500) == 0
    requires ItemOf(h, TAG_RESERVED_SPACE) == Some(Item(FORMAT_BINARY, U32_LIMIT - 1, [1, 2]))
    requires IndexOf(h.entries, TAG_HEADER_SIGNATURES) >= 0 && MaxEnd(Pieces(h.entries)) <= Space(h) <= 4158
    ensures CanApply(h, ADDING)
    ensures var h' := Apply(h, ADDING, grow);
            && Sound(h') && HasReservation(h') && |Reservation(h').payload| == U32_LIMIT - 2
            && IndexOf(h'.entries, TAG_HEADER_SIGNATURES) >= 0
  {
    hide Framed, RegionOk, Ascending, SetOrAdd, ItemsWith, MaxEnd, HasData, Allocate;
    FirstItem(h.entries, 500);
    RegionHasTrailer(h);
    SettingNeverPanics(h, 500, FORMAT_BINARY, [1]);
    ApplyIsSound(h, ADDING, grow);
    SetOrAddReservation(h, 500, FORMAT_BINARY, 1, [1], grow);
    AllocationLaw(h, 1, FORMAT_BINARY, grow);
    SetOrAddItemsWith(h, 500, FORMAT_BINARY, 1, [1], grow, TAG_HEADER_SIGNATURES);
    FirstItem(h.entries, TAG_HEADER_SIGNATURES);
    FirstItem(Apply(h, ADDING, grow).entries, TAG_HEADER_SIGNATURES);
  }

  lemma HugeIsInconsistent(h: Header)
    requires Sound(h) && HasReservation(h) && |Reservation(h).payload| == U32_LIMIT - 2
    requires IndexOf(h.entries, TAG_HEADER_SIGNATURES) >= 0
    ensures !Consistent(h)
  {
    hide TrailerWordsOk, RegionCount, Image, KnownFormats, HasPayloads, Ascending, PairwiseDisjoint;
    var r, t, offsets := IndexOf(h.entries, TAG_RESERVED_SPACE), TrailerIndex(h), Offsets(h.entries);
    assert offsets[r] == h.entries[r].offset && offsets[t] == h.entries[t].offset;
  }

  // A sound header, and two operations that go through, the first of which makes the reservation
  // and then hits it: the second one takes it past the end of the store.
  lemma RunIsNotConsistent(grow: Growth)
    ensures var h, ops := Behind(), [OVERCOUNTING, ADDING];
            && Sound(h) && Packed(h) && Space(h) == 39 && !InCheck(h, ops)
            && CanRun(h, ops, grow) && !Consistent(Run(h, ops, grow))
  {
    hide Sound, Packed, Apply, CanApply, Space, Consistent, SparesReservation, HasReservation, Reservation, ItemOf;
    hide MaxEnd, Count;
    var h, ops := Behind(), [OVERCOUNTING, ADDING];
    BehindIsPacked(h);
    BehindIsSound(h);
    OvercountingHits(h);
    AfterOvercounting(h, grow);
    var h' := Apply(h, OVERCOUNTING, grow);
    AfterAdding(h', grow);
    HugeIsInconsistent(Apply(h', ADDING, grow));
    assert ops[1..] == [ADDING];
    RunOne(h', ADDING, grow);
    assert ops[0] == OVERCOUNTING && !SparesReservation(h, ops[0]);
  }
}
