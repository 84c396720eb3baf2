// Signing a file that was parsed (SignRpm on an RpmFile, common/signing.go:392-441): what is
// written afterwards is accepted again.
module SignedFiles {
  import opened Bits
  import opened Utils
  import opened Words
  import opened DynamicArrays
  import opened Headers
  import opened Layouts
  import opened Editing
  import opened HeaderMaps
  import opened Multimaps
  import opened EditorRuns
  import opened MapRuns
  import opened Spaces
  import opened Formats
  import opened RpmFiles
  import opened Signing
  import opened SigningRuns
  import opened SignedShapes
  import opened Progress

  // ----- SignRpm

  // SignDigest refuses keys that are neither RSA nor DSA.
  function SignatureOf(f: RpmFile, key: PrivateKey, signer: Signer): Option<bytes> {
    if key.keyType.OtherKey? then None else signer(key, f.digested)
  }

  // SignRpm does not panic.
  predicate CanSignFile(f: RpmFile, key: PrivateKey, signer: Signer, grow: Growth) {
    var signature := SignatureOf(f, key, signer);
    signature.Some? ==> CanSign(f.signatureHeader, key.keyType, signature.value, grow)
  }

  // The signed file, or None if SignRpm returns an error
  function SignedFile(f: RpmFile, key: PrivateKey, signer: Signer, grow: Growth): Option<RpmFile>
    requires CanSignFile(f, key, signer, grow)
  {
    var signature := SignatureOf(f, key, signer);
    if signature.None? then None
    else Some(f.(signatureHeader := SignedHeader(f.signatureHeader, key.keyType, signature.value, grow)))
  }

  // ----- accepted signature headers

  lemma OkByParts(e: Entry)
    requires ShapeOk(e) && (e.tag == TAG_HEADER_SIGNATURES ==> TrailerWordsOk(e.payload))
    ensures EntryOk(e)
  {
  }

  lemma SignedCountOfParsed(s: bytes, grow: Growth)
    requires |s| >= 16 && HeaderEnd(s) <= |s|
    ensures var h := ParsedHeader(s, false, grow);
            !h.isMain && h.signedCount == SignedCount(h.entries, false) && |h.entries| <= h.capacity
  {
  }

  // The parser takes the number of entries from the region, which has 28 bits for it.
  lemma CountedIsFew(entries: seq<Entry>)
    requires SignedCount(entries, false) == Some(|entries|)
    ensures |entries| < 0x1000_0000 && IndexOf(entries, TAG_HEADER_SIGNATURES) >= 0
  {
    hide WordOf;
    var t := LastTrailer(entries, |entries|);
    assert entries[t].tag == TAG_HEADER_SIGNATURES;
  }

  // What every accepted signature header has, sorted or not
  lemma AcceptedIsFramed(s: bytes, hashes: Hashes, grow: Growth)
    requires AcceptsFile(s, hashes, grow)
    ensures var h := ParsedFile(s, grow).signatureHeader;
            && Framed(h) && AllOk(h.entries) && |h.entries| < 0x1000_0000
            && h.signedCount == SignedCount(h.entries, false) == Some(|h.entries|)
            && IndexOf(h.entries, TAG_HEADER_SIGNATURES) >= 0
  {
    hide AcceptsHeader, ParsedHeader, EntryOk, ShapeOk, MainStart, DigestMatches, HeaderEnd, TrailerWordsOk;
    hide SupportedVersion, SizeEntry, Md5Entry, Find, PayloadStart, SignedCount, KnownFormats, HasPayloads;
    AcceptedSizes(s);
    var h := ParsedFile(s, grow).signatureHeader;
    AcceptedHeader(s[96..], 96, false, grow);
    SignedCountOfParsed(s[96..], grow);
    forall j | 0 <= j < |h.entries| ensures EntryOk(h.entries[j]) {
      OkByParts(h.entries[j]);
    }
    OkIsKnown(h.entries);
    CountedIsFew(h.entries);
  }

  lemma FirstTrailerIsOk(h: Header)
    requires AllOk(h.entries) && !h.isMain && TrailerHasItsSize(h)
    requires IndexOf(h.entries, TAG_HEADER_SIGNATURES) >= 0
    ensures TrailerOk(h)
  {
    hide ShapeOk, TrailerWordsOk;
    assert EntryOk(h.entries[IndexOf(h.entries, TAG_HEADER_SIGNATURES)]);
  }

  // What runs of edits need beyond acceptance: a first trailer of 16 bytes whose region covers all
  // entries, which is the one the parser goes by if it is the only one.
  predicate Editable(h: Header) {
    TrailerHasItsSize(h) && CoversAll(h)
  }

  lemma OnlyTrailerCovers(h: Header)
    requires SignedCount(h.entries, false) == Some(|h.entries|) && Count(h.entries, TAG_HEADER_SIGNATURES) <= 1
    ensures CoversAll(h)
  {
    hide RegionCount, ItemsWith;
    var t, first := LastTrailer(h.entries, |h.entries|), IndexOf(h.entries, TAG_HEADER_SIGNATURES);
    if t != first {
      var rest := Without(h.entries, TAG_HEADER_SIGNATURES);
      assert rest[t - 1] == h.entries[t];
      ItemsWithout(h.entries, TAG_HEADER_SIGNATURES, TAG_HEADER_SIGNATURES);
      FirstItem(rest, TAG_HEADER_SIGNATURES);
    }
  }

  lemma AcceptedIsIntact(s: bytes, hashes: Hashes, grow: Growth)
    requires AcceptsFile(s, hashes, grow)
    ensures var h := ParsedFile(s, grow).signatureHeader;
            && (Count(h.entries, TAG_HEADER_SIGNATURES) <= 1 ==> CoversAll(h))
            && (Editable(h) ==> Intact(h))
            && (Editable(h) && Ascending(h.entries) ==> Sound(h))
  {
    hide AcceptsFile, ParsedFile, Framed, AllOk, SignedCount, Ascending, ItemsWith, RegionCount, TrailerWordsOk;
    assert AcceptsHeaders(s) by { AcceptedHasHeaders(s, hashes, grow); }
    AcceptedIsFramed(s, hashes, grow);
    var h := ParsedFile(s, grow).signatureHeader;
    if Count(h.entries, TAG_HEADER_SIGNATURES) <= 1 {
      OnlyTrailerCovers(h);
    }
    if Editable(h) {
      FramedIsMainless(h);
      FirstTrailerIsOk(h);
    }
  }

  lemma FramedIsMainless(h: Header)
    requires Framed(h)
    ensures !h.isMain
  {
  }

  // ----- the parts of a header that no edit touches

  predicate SamePreamble(h: Header, h': Header) {
    h'.isMain == h.isMain && h'.magic == h.magic && h'.version == h.version && h'.reserved == h.reserved
  }

  lemma SettlingKeepsPreamble(h: Header)
    requires TrailerHasItsSize(h)
    ensures SamePreamble(h, SyncLayout(UpdateTrailer(h)))
  {
  }

  lemma InsertKeepsPreamble(h: Header, e: Entry, grow: Growth)
    requires TrailerHasItsSize(h) && e.tag != TAG_HEADER_SIGNATURES
    ensures SamePreamble(h, Insert(h, e, grow))
  {
    hide SyncLayout, UpdateTrailer;
    InsertionKeepsTrailerSize(h, e, grow);
    SettlingKeepsPreamble(WithEntry(h, e, grow));
  }

  lemma AllocationKeepsPreamble(h: Header, n: u32, format: u32, grow: Growth)
    requires TrailerHasItsSize(h)
    ensures SamePreamble(h, Allocate(h, n, format, grow).h)
  {
    hide AllocateOnce, Insert, NewReservation;
    var reserved := WithReservedSpace(h, n, format, grow);
    if IndexOf(h.entries, TAG_RESERVED_SPACE) < 0 {
      InsertKeepsPreamble(h, NewReservation(h, n, format), grow);
    }
    OneAllocationKeeps(reserved, n, format);
    StillReserved(reserved, n, format);
    OneAllocationKeeps(AllocateOnce(reserved, n, format).h, n, format);
  }

  lemma ApplyKeepsPreamble(h: Header, op: Op, grow: Growth)
    requires CanApply(h, op)
    ensures SamePreamble(h, Apply(h, op, grow))
  {
    hide Allocate, Insert, UpdateTrailer, LaidOut, LayoutSize, HasData, Roomy, NeedsAllocation;
    match op
    case SetOp(tag, format, count, payload) =>
      AllocationKeepsPreamble(h, U32(|payload|), format, grow);
      AllocationKeepsTrailerSize(h, U32(|payload|), format, grow);
      var allocation := Allocate(h, U32(|payload|), format, grow);
      InsertKeepsPreamble(allocation.h, Entry(tag, format, allocation.address, count, payload), grow);
    case DeleteOp(tag) =>
      if IndexOf(h.entries, tag) >= 0 {
        RemovalKeepsTrailerSize(h, IndexOf(h.entries, tag));
        SettlingKeepsPreamble(RemoveAtIndex(h, IndexOf(h.entries, tag)));
      }
  }

  lemma {:induction false} RunKeepsPreamble(h: Header, ops: seq<Op>, grow: Growth)
    requires CanRun(h, ops, grow)
    ensures SamePreamble(h, Run(h, ops, grow))
    decreases |ops|
  {
    hide Apply, CanApply;
    if ops != [] {
      ApplyKeepsPreamble(h, ops[0], grow);
      RunKeepsPreamble(Apply(h, ops[0], grow), ops[1..], grow);
    }
  }

  // ----- well-formedness after signing

  lemma PackedIsApart(h: Header)
    requires Packed(h) && Fits(h.entries)
    ensures AllApart(h.entries) && Aligned(h.entries)
  {
    hide LayoutOffset, LayoutSize, Fits;
    var t, offsets := TrailerIndex(h), Offsets(h.entries);
    assert LaidOut(h.entries, t) == h.entries by {
      assert SyncLayout(h).entries == h.entries;
    }
    LaidOutIsLayout(h.entries, t);
    assert forall i :: 0 <= i < |h.entries| ==> offsets[i] == h.entries[i].offset;
  }

  lemma SettledIsWellFormed(h: Header)
    requires Framed(h) && Packed(h) && Fits(h.entries) && h.magic == HEADER_MAGIC && |h.reserved| == 4
    ensures Aligned(h.entries) && h.storeSize == MaxEnd(Pieces(h.entries))
    ensures AllOk(h.entries) ==> WellFormedHeader(h)
  {
    hide Packed, Fits, ShapeOk, MaxEnd, Aligned, AllApart, TrailerWordsOk;
    PackedIsApart(h);
    PackedEndsWithStore(h);
    if AllOk(h.entries) {
      forall j | 0 <= j < |h.entries|
        ensures ShapeOk(h.entries[j])
        ensures h.entries[j].tag == TAG_HEADER_SIGNATURES ==> TrailerWordsOk(h.entries[j].payload)
      {
        assert EntryOk(h.entries[j]);
      }
    }
  }

  // ----- the checks of the parser after signing

  lemma FindIsItem(h: Header, t: u32)
    requires t != TAG_HEADER_SIGNATURES
    ensures ItemOf(h, t) == (var e := Find(h.entries, t);
                             if e.None? then None else Some(Item(e.value.format, e.value.count, e.value.payload)))
  {
  }

  function CheckedTags(): set<u32> {
    {TAG_SIG_SIZE, TAG_SIZE, TAG_SHA1_HEADER, TAG_SHA256_HEADER, TAG_MD5, TAG_SIG_MD5}
  }

  // The item is there if it was, and unchanged if it is a number or a string.
  predicate StillChecked(before: Option<Item>, after: Option<Item>) {
    && (after.Some? <==> before.Some?)
    && (before.Some? && before.value.format in {FORMAT_INT32, FORMAT_STRING} ==> after == before)
  }

  lemma SameChecks(h: Header, h': Header, t: u32, digest: bytes)
    requires t != TAG_HEADER_SIGNATURES && StillChecked(ItemOf(h, t), ItemOf(h', t))
    ensures Find(h'.entries, t).Some? <==> Find(h.entries, t).Some?
    ensures DigestMatches(Find(h.entries, t), digest) ==> DigestMatches(Find(h'.entries, t), digest)
    ensures Find(h.entries, t).Some? && IsInt32(Find(h.entries, t).value) ==> IsInt32(Find(h'.entries, t).value)
  {
    hide Find, HexDecode, ItemOf;
    FindIsItem(h, t);
    FindIsItem(h', t);
  }

  // The entries that the parser checks are numbers and strings, or only have to be there.
  lemma ChecksStillPass(f: RpmFile, f': RpmFile, hashes: Hashes)
    requires Validates(f, hashes)
    requires f'.lead == f.lead && f'.mainHeader == f.mainHeader && f'.digested == f.digested
    requires forall t :: t in CheckedTags() ==>
               StillChecked(ItemOf(f.signatureHeader, t), ItemOf(f'.signatureHeader, t))
    requires f'.signatureHeader.signedCount == Some(|f'.signatureHeader.entries|)
    ensures Validates(f', hashes)
  {
    hide Find, DigestMatches, ItemOf, IsInt32;
    var h, h' := f.signatureHeader, f'.signatureHeader;
    var sha1, sha256 := hashes.sha1(f.digested), hashes.sha256(f.digested);
    SameChecks(h, h', TAG_SIG_SIZE, []);
    SameChecks(h, h', TAG_SIZE, []);
    SameChecks(h, h', TAG_SHA1_HEADER, sha1);
    SameChecks(h, h', TAG_SHA256_HEADER, sha256);
    SameChecks(h, h', TAG_MD5, []);
    SameChecks(h, h', TAG_SIG_MD5, []);
  }

  // ----- the law of signing

  lemma MainHeaderSurvives(s: bytes, grow: Growth)
    requires AcceptsHeaders(s)
    requires var f := ParsedFile(s, grow); TightStore(StoreOf(s[MainStart(s)..]), f.mainHeader.entries)
    ensures var f := ParsedFile(s, grow);
            && WellFormedHeader(f.mainHeader) && f.mainHeader.isMain
            && Reparsed(f.mainHeader, grow) == f.mainHeader
            && PrintedHeader(f.mainHeader) == f.digested
  {
    hide AcceptsHeader, MainStart, PrintedHeader, WellFormedHeader, StoreOf, IndexIn, FilledAll, AppendedCapacity;
    AcceptedSizes(s);
    var m := MainStart(s);
    ParseThenPrint(s[m..], m, true, grow);
    StoreLength(s[m..]);
    AcceptedIsWellFormed(s[m..], m, true, grow);
    assert s[m..][..HeaderEnd(s[m..])] == s[m..PayloadStart(s)];
  }

  lemma LeadSurvives(s: bytes, grow: Growth)
    requires AcceptsHeaders(s)
    ensures WellFormedLead(ParsedFile(s, grow).lead)
  {
    hide AcceptsHeader, MainStart, ParsedHeader, PayloadStart, ShortOf;
  }

  lemma SignaturePreamble(s: bytes, grow: Growth)
    requires AcceptsHeaders(s)
    ensures var h := ParsedFile(s, grow).signatureHeader;
            h.magic == HEADER_MAGIC && |h.reserved| == 4 && !h.isMain
  {
    hide AcceptsStore, MainStart, PayloadStart, IndexIn, FilledAll, AppendedCapacity, SignedCount, StoreOf;
    hide HeaderLength, EntryCountOf;
    AcceptedSizes(s);
  }

  lemma SigningKeepsPreamble(h: Header, keyType: KeyType, packet: bytes, grow: Growth)
    requires CanSign(h, keyType, packet, grow)
    ensures SamePreamble(h, SignedHeader(h, keyType, packet, grow))
  {
    hide CanRun, Run, SamePreamble;
    RunKeepsPreamble(h, SigningOps(keyType, packet), grow);
  }

  lemma AcceptedHasHeaders(s: bytes, hashes: Hashes, grow: Growth)
    requires AcceptsFile(s, hashes, grow)
    ensures AcceptsHeaders(s)
  {
  }

  lemma PreambleIsKept(h: Header, h': Header)
    requires SamePreamble(h, h')
    ensures h'.isMain == h.isMain && h'.magic == h.magic && h'.reserved == h.reserved
  {
  }

  lemma PayloadStartIsInside(s: bytes, grow: Growth)
    requires AcceptsHeaders(s)
    ensures ParsedFile(s, grow).payloadStart <= |s|
  {
    hide AcceptsHeader, ParsedHeader, MainStart, PayloadStart, ParsedLead;
    AcceptedSizes(s);
  }

  lemma CapacityIsNoItem(h: Header, grow: Growth)
    ensures forall t: u32 :: ItemOf(Reparsed(h, grow), t) == ItemOf(h, t)
  {
  }

  // The signature header of an accepted file can hold the signature: reserved space that is used
  // and an entry that is hit by mistake keep the shape of their formats, and the region of the
  // first trailer covers all entries in the end.
  predicate SigningSurvives(h: Header, keyType: KeyType, packet: bytes)
    requires !keyType.OtherKey? && |packet| < U32_LIMIT
  {
    && ReservationSurvives(h, keyType, packet) && NeighbourSurvives(h, keyType, packet)
    && RegionSurvives(h, keyType, packet)
  }

  // The signed file, once it is written, is accepted and read back: with the signed header, and
  // with the lead, the main header, the digested bytes and the payload of the file that was signed.
  ghost predicate IsReadBack(s: bytes, f': RpmFile, hashes: Hashes, grow: Growth)
    requires AcceptsHeaders(s)
  {
    var f := ParsedFile(s, grow);
    && f.payloadStart <= |s|
    && var out := PrintedFile(f', s[f.payloadStart..]);
       && AcceptsFile(out, hashes, grow)
       && var g := ParsedFile(out, grow);
          && g.signatureHeader == Reparsed(f'.signatureHeader, grow)
          && g.lead == f.lead && g.mainHeader == f.mainHeader && g.digested == f.digested
          && g.payloadStart <= |out| && out[g.payloadStart..] == s[f.payloadStart..]
  }

  // What is known of the signature header after signing an accepted file, whether or not it can be
  // read back
  lemma SignedHeaderFacts(s: bytes, keyType: KeyType, packet: bytes, hashes: Hashes, grow: Growth)
    requires AcceptsFile(s, hashes, grow)
    requires CanSign(ParsedFile(s, grow).signatureHeader, keyType, packet, grow)
    requires Fits(SignedHeader(ParsedFile(s, grow).signatureHeader, keyType, packet, grow).entries)
    ensures !keyType.OtherKey? && |packet| < U32_LIMIT
    ensures var h := ParsedFile(s, grow).signatureHeader;
            var h' := SignedHeader(h, keyType, packet, grow);
            && !h'.isMain && Framed(h') && Packed(h') && Aligned(h'.entries)
            && h'.storeSize == MaxEnd(Pieces(h'.entries))
            && (AllOk(h'.entries) ==> WellFormedHeader(h'))
            && (AllOk(h'.entries) && SignedCount(h'.entries, false) == Some(|h'.entries|) <==>
                  SigningSurvives(h, keyType, packet))
            && (AllOk(h'.entries) ==> forall t :: t in CheckedTags() ==> StillChecked(ItemOf(h, t), ItemOf(h', t)))
  {
    hide AcceptsFile, ParsedFile, CanSign, SignedHeader, Packed, Fits, ItemOf, AllOk, WellFormedHeader, Framed;
    hide Aligned, SamePreamble, SignedCount, MaxEnd, StillChecked, ReservationSurvives, NeighbourSurvives;
    hide RegionSurvives, CoversAll, TrailerOk, ItemsWith;
    assert AcceptsHeaders(s) by { AcceptedHasHeaders(s, hashes, grow); }
    var h := ParsedFile(s, grow).signatureHeader;
    AcceptedIsFramed(s, hashes, grow);
    SignaturePreamble(s, grow);
    var h' := SignedHeader(h, keyType, packet, grow);
    PacketIsShort(h, keyType, packet, grow);
    SigningKeepsFrame(h, keyType, packet, grow);
    SigningKeepsPreamble(h, keyType, packet, grow);
    PreambleIsKept(h, h');
    SettledIsWellFormed(h');
    SignableHasTrailerSize(h, keyType, packet, grow);
    FirstTrailerIsOk(h);
    SignedIsOk(h, keyType, packet, grow);
    SignedRegion(h, keyType, packet, grow);
    SignedHasTrailer(h, keyType, packet, grow);
    FramedHasPayloads(h');
    CountIsRead(h');
    if AllOk(h'.entries) {
      forall t | t in CheckedTags() ensures StillChecked(ItemOf(h, t), ItemOf(h', t)) {
        CheckedItem(h, keyType, packet, grow, t);
        assert StillChecked(ItemOf(h, t), ItemOf(h', t)) by { ItemIsChecked(ItemOf(h, t), ItemOf(h', t)); }
      }
    }
  }

  lemma ItemIsChecked(before: Option<Item>, after: Option<Item>)
    requires after.Some? <==> before.Some?
    requires before.Some? && before.value.format in {FORMAT_INT32, FORMAT_STRING} ==> after == before
    ensures StillChecked(before, after)
  {
  }

  lemma FramedHasPayloads(h: Header)
    requires Framed(h)
    ensures HasPayloads(h.entries)
  {
  }

  lemma SignableHasTrailerSize(h: Header, keyType: KeyType, packet: bytes, grow: Growth)
    requires CanSign(h, keyType, packet, grow)
    ensures TrailerHasItsSize(h)
  {
    hide Delete, HasData;
    assert CanApply(h, SigningOps(keyType, packet)[0]);
  }

  lemma SignedHasTrailer(h: Header, keyType: KeyType, packet: bytes, grow: Growth)
    requires CanSign(h, keyType, packet, grow)
    ensures IndexOf(SignedHeader(h, keyType, packet, grow).entries, TAG_HEADER_SIGNATURES) >= 0 <==>
            IndexOf(h.entries, TAG_HEADER_SIGNATURES) >= 0
  {
    hide CanSign, SignedHeader, ItemsWith, IndexOf;
    PacketIsShort(h, keyType, packet, grow);
    SignedCounts(h, keyType, packet, grow, TAG_HEADER_SIGNATURES);
    FirstItem(h.entries, TAG_HEADER_SIGNATURES);
    FirstItem(SignedHeader(h, keyType, packet, grow).entries, TAG_HEADER_SIGNATURES);
  }

  // A signed header that can hold the signature is read back from what is written.
  lemma SurvivingIsReadBack(s: bytes, f': RpmFile, hashes: Hashes, grow: Growth)
    requires AcceptsFile(s, hashes, grow)
    requires var f := ParsedFile(s, grow); f' == f.(signatureHeader := f'.signatureHeader)
    requires var h' := f'.signatureHeader;
             && WellFormedHeader(h') && !h'.isMain && SignedCount(h'.entries, false) == Some(|h'.entries|)
             && forall t :: t in CheckedTags() ==>
                  StillChecked(ItemOf(ParsedFile(s, grow).signatureHeader, t), ItemOf(h', t))
    requires TightStore(StoreOf(s[MainStart(s)..]), ParsedFile(s, grow).mainHeader.entries)
    ensures IsReadBack(s, f', hashes, grow)
  {
    hide AcceptsHeaders, ParsedFile, TightStore, WellFormedHeader, StoreOf, MainStart, StillChecked;
    hide PrintedHeader, PrintedFile, PrintedHeaders, WellFormedLead, Validates, ItemOf, SignedCount, AppendedCapacity;
    hide CalcAlignmentByteCount;
    var f := ParsedFile(s, grow);
    PayloadStartIsInside(s, grow);
    MainHeaderSurvives(s, grow);
    LeadSurvives(s, grow);
    PrintThenParseFile(f', s[f.payloadStart..], grow);
    CapacityIsNoItem(f'.signatureHeader, grow);
    ChecksStillPass(f, ReparsedFile(f', grow), hashes);
    PayloadStartIsInside(PrintedFile(f', s[f.payloadStart..]), grow);
  }

  // What is read back was accepted entry by entry, and its region was counted.
  lemma ReadBackSurvives(s: bytes, f': RpmFile, hashes: Hashes, grow: Growth)
    requires AcceptsHeaders(s) && IsReadBack(s, f', hashes, grow) && !f'.signatureHeader.isMain
    ensures AllOk(f'.signatureHeader.entries)
    ensures SignedCount(f'.signatureHeader.entries, false) == Some(|f'.signatureHeader.entries|)
  {
    hide AcceptsFile, AcceptsHeaders, ParsedFile, PrintedFile, AllOk, SignedCount, Framed;
    var out := PrintedFile(f', s[ParsedFile(s, grow).payloadStart..]);
    AcceptedIsFramed(out, hashes, grow);
  }

  // The main header is read back from where it was written only if it was written as it was read.
  lemma ReadBackIsTight(s: bytes, f': RpmFile, hashes: Hashes, grow: Growth)
    requires AcceptsFile(s, hashes, grow) && IsReadBack(s, f', hashes, grow)
    requires var f := ParsedFile(s, grow); f' == f.(signatureHeader := f'.signatureHeader)
    requires WellFormedHeader(f'.signatureHeader) && !f'.signatureHeader.isMain
    ensures PrintedHeader(ParsedFile(s, grow).mainHeader) == ParsedFile(s, grow).digested
  {
    hide AcceptsHeader, WellFormedHeader, MainStart, PrintedHeader, Validates, HeaderEnd, ParsedHeader, ParsedLead;
    hide PrintedFile, PrintedHeaders, WellFormedLead, CalcAlignmentByteCount, Reparsed;
    LeadSurvives(s, grow);
    var f := ParsedFile(s, grow);
    var payload := s[f.payloadStart..];
    var out, main := PrintedFile(f', payload), PrintedHeader(f.mainHeader);
    PrintedFront(f', payload, grow);
    AcceptedSizes(out);
    var m, n := MainStart(out), PayloadStart(out);
    assert out[m..] == main + payload && out[n..] == payload;
    assert |main| == n - m;
    assert out[m..n] == out[m..][..n - m] == main;
  }

  // Signing preserves acceptance. Take any accepted file that SignRpm does not panic on, and whose
  // signed header does not overflow. What is written then is accepted and read back, exactly if the
  // store of its main header is tight and its signature header can hold the signature.
  lemma SigningPreservesAcceptance(s: bytes, key: PrivateKey, signer: Signer, hashes: Hashes, grow: Growth)
    requires AcceptsFile(s, hashes, grow)
    requires var f := ParsedFile(s, grow);
             && CanSignFile(f, key, signer, grow) && SignatureOf(f, key, signer).Some?
             && Fits(SignedFile(f, key, signer, grow).value.signatureHeader.entries)
    ensures var f := ParsedFile(s, grow); var packet := SignatureOf(f, key, signer).value;
            && !key.keyType.OtherKey? && |packet| < U32_LIMIT && |s| >= 112 && MainStart(s) + 16 <= |s|
            && HeaderEnd(s[MainStart(s)..]) <= |s[MainStart(s)..]|
            && (IsReadBack(s, SignedFile(f, key, signer, grow).value, hashes, grow) <==>
                  && TightStore(StoreOf(s[MainStart(s)..]), f.mainHeader.entries)
                  && SigningSurvives(f.signatureHeader, key.keyType, packet))
            && Aligned(SignedFile(f, key, signer, grow).value.signatureHeader.entries)
  {
    hide AcceptsHeaders, ParsedFile, CanSign, SignedHeader, Fits, TightStore, WellFormedHeader, Aligned, StoreOf;
    hide MainStart, AcceptsFile, IsReadBack, Framed, Packed, AllOk, SignedCount, StillChecked, SigningSurvives, ItemOf;
    hide PrintedHeader, MaxEnd;
    assert AcceptsHeaders(s) by { AcceptedHasHeaders(s, hashes, grow); }
    var f, packet := ParsedFile(s, grow), SignatureOf(ParsedFile(s, grow), key, signer).value;
    var f' := SignedFile(f, key, signer, grow).value;
    SignedHeaderFacts(s, key.keyType, packet, hashes, grow);
    VerifierChecksDigestedBytes(s, grow);
    if IsReadBack(s, f', hashes, grow) {
      ReadBackSurvives(s, f', hashes, grow);
      ReadBackIsTight(s, f', hashes, grow);
    } else if TightStore(StoreOf(s[MainStart(s)..]), f.mainHeader.entries) &&
              SigningSurvives(f.signatureHeader, key.keyType, packet) {
      SurvivingIsReadBack(s, f', hashes, grow);
    }
  }

  // ----- signer and verifier

  // NewSignatureVerifier checks a V4 signature against the main header written anew, SignRpm signs
  // the bytes the digests absorbed while it was read: the same bytes exactly for a tight store.
  lemma VerifierChecksDigestedBytes(s: bytes, grow: Growth)
    requires AcceptsHeaders(s)
    ensures |s| >= 112 && MainStart(s) + 16 <= |s|
    ensures HeaderEnd(s[MainStart(s)..]) <= |s[MainStart(s)..]|
    ensures PrintedHeader(ParsedFile(s, grow).mainHeader) == ParsedFile(s, grow).digested <==>
            TightStore(StoreOf(s[MainStart(s)..]), ParsedFile(s, grow).mainHeader.entries)
  {
    hide AcceptsHeader, ParsedHeader, PrintedHeader, TightStore, StoreOf, MainStart, HeaderEnd, ParsedLead;
    AcceptedSizes(s);
    var m := MainStart(s);
    assert s[m..][..HeaderEnd(s[m..])] == s[m..PayloadStart(s)];
    ParseThenPrint(s[m..], m, true, grow);
  }

  // Signing, writing, parsing again: the verifier then checks the main header that was signed. The
  // first V4 signature it finds is the signature of the very bytes it checks, exactly if that was
  // not lost; and it is the only one exactly if there was at most one of each type before.
  lemma SignedOutputVerifies(s: bytes, key: PrivateKey, signer: Signer, hashes: Hashes, grow: Growth)
    requires AcceptsFile(s, hashes, grow)
    requires var f := ParsedFile(s, grow);
             && CanSignFile(f, key, signer, grow) && SignatureOf(f, key, signer).Some?
             && IsReadBack(s, SignedFile(f, key, signer, grow).value, hashes, grow)
             && PrintedHeader(f.mainHeader) == f.digested
    ensures var f := ParsedFile(s, grow); var h := f.signatureHeader;
            var out := PrintedFile(SignedFile(f, key, signer, grow).value, s[f.payloadStart..]);
            && AcceptsHeaders(out) && !key.keyType.OtherKey?
            && var g := ParsedFile(out, grow); var checked := PrintedHeader(g.mainHeader);
               var tag, other := SignatureTag(key.keyType), OtherSignatureTag(key.keyType);
               && checked == f.digested
               && signer(key, checked).Some? && |signer(key, checked).value| < U32_LIMIT
               && var packet := signer(key, checked).value;
                  && (ItemOf(g.signatureHeader, tag) == Some(Item(FORMAT_BINARY, |packet|, packet)) <==>
                        !SignatureIsLost(h, key.keyType, packet))
                  && (Count(g.signatureHeader.entries, tag) + Count(g.signatureHeader.entries, other) == 1 <==>
                        Count(h.entries, tag) <= 1 && Count(h.entries, other) <= 1)
  {
    hide AcceptsHeaders, ParsedFile, CanSign, SignedHeader, PrintedFile, AcceptsFile, ItemOf, ItemsWith, Framed;
    hide PrintedHeader, SignatureIsLost, Count;
    assert AcceptsHeaders(s) by { AcceptedHasHeaders(s, hashes, grow); }
    var f := ParsedFile(s, grow);
    var h, packet := f.signatureHeader, SignatureOf(f, key, signer).value;
    AcceptedIsFramed(s, hashes, grow);
    PacketIsShort(h, key.keyType, packet, grow);
    SignedSignature(h, key.keyType, packet, grow);
    SignedCounts(h, key.keyType, packet, grow, TAG_RSA_HEADER);
    SignedCounts(h, key.keyType, packet, grow, TAG_DSA_HEADER);
    CapacityIsNoItem(SignedHeader(h, key.keyType, packet, grow), grow);
    AcceptedHasHeaders(PrintedFile(SignedFile(f, key, signer, grow).value, s[f.payloadStart..]), hashes, grow);
  }

  // ----- conditions that are enough

  // A header whose region is in order and whose reserved space is BINARY can hold any signature that
  // hits no other entry.
  lemma PlainSurvives(h: Header, keyType: KeyType, packet: bytes)
    requires !keyType.OtherKey? && |packet| < U32_LIMIT && CoversAll(h) && !HitsNeighbour(h, keyType, packet)
    requires HasReservation(h) ==> Reservation(h).format == FORMAT_BINARY
    ensures SigningSurvives(h, keyType, packet)
  {
    hide ShapeOk, CoversAll, HitsNeighbour, Outgrows, Staying;
    if HasReservation(h) {
      BinaryIsOk(ReservationAfter(h, |packet|));
    }
  }

  // An accepted file with sorted tags can hold any signature, if its reserved space is BINARY.
  lemma SortedSurvives(s: bytes, keyType: KeyType, packet: bytes, hashes: Hashes, grow: Growth)
    requires AcceptsFile(s, hashes, grow) && !keyType.OtherKey? && |packet| < U32_LIMIT
    requires var h := ParsedFile(s, grow).signatureHeader;
             Ascending(h.entries) && (HasReservation(h) ==> Reservation(h).format == FORMAT_BINARY)
    ensures SigningSurvives(ParsedFile(s, grow).signatureHeader, keyType, packet)
  {
    hide AcceptsFile, ParsedFile, Ascending, SigningSurvives, HitsNeighbour, AllOk, SignedCount, Count;
    assert AcceptsHeaders(s) by { AcceptedHasHeaders(s, hashes, grow); }
    var h := ParsedFile(s, grow).signatureHeader;
    AcceptedIsFramed(s, hashes, grow);
    AcceptedIsIntact(s, hashes, grow);
    AscendingOccursOnce(h.entries, TAG_HEADER_SIGNATURES);
    LostWhenSorted(h, keyType, packet);
    PlainSurvives(h, keyType, packet);
  }

  // With room there is no panic and no overflow.
  lemma RoomIsEnough(s: bytes, keyType: KeyType, packet: bytes, hashes: Hashes, grow: Growth)
    requires AcceptsFile(s, hashes, grow) && packet != []
    requires var h := ParsedFile(s, grow).signatureHeader;
             && TrailerHasItsSize(h) && ReadyForSignature(h, keyType, |packet|)
             && (HasReservation(h) ==> FairReservation(h))
    ensures var h := ParsedFile(s, grow).signatureHeader;
            && Framed(h) && |h.entries| < 0x1000_0000 && |packet| < U32_LIMIT && CanSign(h, keyType, packet, grow)
            && Space(SignedHeader(h, keyType, packet, grow)) + 1 < U32_LIMIT
            && Fits(SignedHeader(h, keyType, packet, grow).entries)
  {
    hide AcceptsFile, ParsedFile, Framed, AllOk, CanSign, SignedHeader, FairReservation, Space, Fits, ReadyForSignature;
    assert AcceptsHeaders(s) by { AcceptedHasHeaders(s, hashes, grow); }
    var h := ParsedFile(s, grow).signatureHeader;
    AcceptedIsFramed(s, hashes, grow);
    SigningNeverPanics(h, keyType, packet, grow);
    PacketIsShort(h, keyType, packet, grow);
  }
}
