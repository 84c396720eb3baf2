// Signing, writing and reading a file again, any number of times (common/signing.go:392-441,
// common/rpmparser.go:1494-1580).
module FileRuns {
  import opened Bits
  import opened Headers
  import opened Layouts
  import opened Editing
  import opened HeaderMaps
  import opened Multimaps
  import opened EditorRuns
  import opened MapRuns
  import opened Spaces
  import opened Formats
  import opened RpmFiles
  import opened Signing
  import opened SigningRuns
  import opened SignedShapes
  import opened Progress
  import opened SignedFiles

  // A file that is accepted, and whose main header is checked against the bytes it was read from
  ghost predicate Settled(s: bytes, hashes: Hashes, grow: Growth) {
    AcceptsFile(s, hashes, grow) && PrintedHeader(ParsedFile(s, grow).mainHeader) == ParsedFile(s, grow).digested
  }

  // The key makes a signature for which there is room, and which the signature header can hold.
  ghost predicate HasRoom(s: bytes, key: PrivateKey, signer: Signer, grow: Growth)
    requires AcceptsHeaders(s)
  {
    var f := ParsedFile(s, grow); var h, signature := f.signatureHeader, SignatureOf(f, key, signer);
    && signature.Some? && 0 < |signature.value| < U32_LIMIT
    && TrailerHasItsSize(h) && (HasReservation(h) ==> FairReservation(h))
    && ReadyForSignature(h, key.keyType, |signature.value|)
    && SigningSurvives(h, key.keyType, signature.value)
  }

  ghost predicate Ready(s: bytes, key: PrivateKey, signer: Signer, hashes: Hashes, grow: Growth) {
    Settled(s, hashes, grow) && HasRoom(s, key, signer, grow)
  }

  // A file that is ready can be signed, and is read back.
  lemma ReadyIsReadBack(s: bytes, key: PrivateKey, signer: Signer, hashes: Hashes, grow: Growth)
    requires Ready(s, key, signer, hashes, grow)
    ensures var f := ParsedFile(s, grow);
            && f.payloadStart <= |s| && CanSignFile(f, key, signer, grow) && !key.keyType.OtherKey?
            && |SignatureOf(f, key, signer).value| < U32_LIMIT
            && IsReadBack(s, SignedFile(f, key, signer, grow).value, hashes, grow)
            && Aligned(SignedFile(f, key, signer, grow).value.signatureHeader.entries)
            && Framed(f.signatureHeader) && |f.signatureHeader.entries| < 0x1000_0000
            && Space(SignedFile(f, key, signer, grow).value.signatureHeader) + 1 < U32_LIMIT
  {
    hide AcceptsHeaders, ParsedFile, PrintedHeader, TightStore, MainStart, Validates, CanSign, SignedHeader, Fits;
    hide Aligned, StoreOf, FairReservation, IsReadBack, Space, Framed, SigningSurvives, ReadyForSignature;
    PayloadStartIsInside(s, grow);
    RoomIsEnough(s, key.keyType, SignatureOf(ParsedFile(s, grow), key, signer).value, hashes, grow);
    VerifierChecksDigestedBytes(s, grow);
    SigningPreservesAcceptance(s, key, signer, hashes, grow);
  }

  lemma RoomHasSignature(s: bytes, key: PrivateKey, signer: Signer, grow: Growth)
    requires AcceptsHeaders(s) && HasRoom(s, key, signer, grow)
    ensures SignatureOf(ParsedFile(s, grow), key, signer).Some?
  {
    hide ParsedFile, ReadyForSignature, SigningSurvives;
  }

  // What SignRpmAndWrite writes
  ghost function SignedBytes(s: bytes, key: PrivateKey, signer: Signer, hashes: Hashes, grow: Growth): bytes
    requires Ready(s, key, signer, hashes, grow)
  {
    ReadyIsReadBack(s, key, signer, hashes, grow);
    PrintedFile(SignedFile(ParsedFile(s, grow), key, signer, grow).value, s[ParsedFile(s, grow).payloadStart..])
  }

  // The parts of a file that signing leaves alone
  ghost predicate SameContents(s: bytes, s': bytes, grow: Growth)
    requires AcceptsHeaders(s) && AcceptsHeaders(s')
  {
    var f, f' := ParsedFile(s, grow), ParsedFile(s', grow);
    && f'.lead == f.lead && f'.mainHeader == f.mainHeader && f'.digested == f.digested
    && f.payloadStart <= |s| && f'.payloadStart <= |s'| && s'[f'.payloadStart..] == s[f.payloadStart..]
  }

  // The signed file is accepted again. Its signature header is the one that was signed, and it has
  // the new signature unless that was lost.
  lemma SignedIsSettled(s: bytes, key: PrivateKey, signer: Signer, hashes: Hashes, grow: Growth)
    requires Ready(s, key, signer, hashes, grow)
    ensures AcceptsHeaders(s) && !key.keyType.OtherKey?
    ensures var h, packet := ParsedFile(s, grow).signatureHeader, SignatureOf(ParsedFile(s, grow), key, signer).value;
            |packet| < U32_LIMIT && CanSign(h, key.keyType, packet, grow)
    ensures var out := SignedBytes(s, key, signer, hashes, grow);
            var h, packet := ParsedFile(s, grow).signatureHeader, SignatureOf(ParsedFile(s, grow), key, signer).value;
            && Settled(out, hashes, grow) && SameContents(s, out, grow)
            && var h' := ParsedFile(out, grow).signatureHeader;
               && h' == Reparsed(SignedHeader(h, key.keyType, packet, grow), grow)
               && (forall t: u32 :: t != TAG_RESERVED_SPACE ==>
                     Count(h'.entries, t) == CountAfter(Count(h.entries, t), key.keyType, t))
               && ItemOf(h', SignatureTag(key.keyType)) ==
                  if SignatureIsLost(h, key.keyType, packet) then ItemOf(h, SignatureTag(key.keyType))
                  else Some(Item(FORMAT_BINARY, |packet|, packet))
  {
    hide AcceptsHeaders, ParsedFile, PrintedHeader, Framed, ItemOf, ItemsWith, Count, CountAfter, HasRoom, Space;
    hide CanSign, SignedHeader, SignatureIsLost, Aligned, PrintedFile, AcceptsFile;
    ReadyIsReadBack(s, key, signer, hashes, grow);
    assert AcceptsHeaders(s) by { AcceptedHasHeaders(s, hashes, grow); }
    var f := ParsedFile(s, grow);
    assert SignatureOf(f, key, signer).Some? by { RoomHasSignature(s, key, signer, grow); }
    var packet := SignatureOf(f, key, signer).value;
    var h, out := f.signatureHeader, SignedBytes(s, key, signer, hashes, grow);
    AcceptedHasHeaders(out, hashes, grow);
    SignedSignature(h, key.keyType, packet, grow);
    CapacityIsNoItem(SignedHeader(h, key.keyType, packet, grow), grow);
    forall t: u32 | t != TAG_RESERVED_SPACE
      ensures Count(ParsedFile(out, grow).signatureHeader.entries, t) ==
              CountAfter(Count(h.entries, t), key.keyType, t)
    {
      SignedCounts(h, key.keyType, packet, grow, t);
    }
  }

  // Each key in turn can sign.
  ghost predicate RoomForAll(s: bytes, keys: seq<PrivateKey>, signer: Signer, hashes: Hashes, grow: Growth)
    requires Settled(s, hashes, grow)
    decreases |keys|
  {
    keys == [] ||
    (HasRoom(s, keys[0], signer, grow) &&
     (SignedIsSettled(s, keys[0], signer, hashes, grow);
      RoomForAll(SignedBytes(s, keys[0], signer, hashes, grow), keys[1..], signer, hashes, grow)))
  }

  ghost function SignedByAll(s: bytes, keys: seq<PrivateKey>, signer: Signer, hashes: Hashes, grow: Growth): bytes
    requires Settled(s, hashes, grow) && RoomForAll(s, keys, signer, hashes, grow)
    decreases |keys|
  {
    if keys == [] then s
    else
      SignedIsSettled(s, keys[0], signer, hashes, grow);
      SignedByAll(SignedBytes(s, keys[0], signer, hashes, grow), keys[1..], signer, hashes, grow)
  }

  function TypesOf(keys: seq<PrivateKey>): (keyTypes: seq<KeyType>)
    ensures |keyTypes| == |keys|
  {
    seq(|keys|, i requires 0 <= i < |keys| => keys[i].keyType)
  }

  // However often a file is signed, written and read again, it is accepted and has the lead, main
  // header and payload it had.
  lemma {:induction false} SigningKeepsContents(
      s: bytes, keys: seq<PrivateKey>, signer: Signer, hashes: Hashes, grow: Growth)
    requires Settled(s, hashes, grow) && RoomForAll(s, keys, signer, hashes, grow)
    ensures var out := SignedByAll(s, keys, signer, hashes, grow);
            && Settled(out, hashes, grow)
            && AcceptsHeaders(s) && AcceptsHeaders(out) && SameContents(s, out, grow)
    ensures AllSupported(TypesOf(keys))
    decreases |keys|
  {
    hide AcceptsHeaders, ParsedFile, SignedBytes, HasRoom, PrintedHeader, Validates, ItemOf, Count, CountAfter;
    hide SignatureIsLost, SignedHeader, CanSign, Reparsed;
    assert AcceptsHeaders(s) by { AcceptedHasHeaders(s, hashes, grow); }
    PayloadStartIsInside(s, grow);
    if keys != [] {
      SignedIsSettled(s, keys[0], signer, hashes, grow);
      SigningKeepsContents(SignedBytes(s, keys[0], signer, hashes, grow), keys[1..], signer, hashes, grow);
      assert forall i :: 0 < i < |keys| ==> TypesOf(keys)[i] == TypesOf(keys[1..])[i - 1];
    }
  }

  lemma {:induction false} SigningCounts(
      s: bytes, keys: seq<PrivateKey>, signer: Signer, hashes: Hashes, grow: Growth, t: u32)
    requires Settled(s, hashes, grow) && RoomForAll(s, keys, signer, hashes, grow) && keys != []
    requires t != TAG_RESERVED_SPACE
    ensures var out := SignedByAll(s, keys, signer, hashes, grow);
            && AcceptsHeaders(s) && AcceptsHeaders(out) && AllSupported(TypesOf(keys))
            && Count(ParsedFile(out, grow).signatureHeader.entries, t) ==
               CountAfterAll(Count(ParsedFile(s, grow).signatureHeader.entries, t), TypesOf(keys), t)
    decreases |keys|
  {
    hide AcceptsHeaders, ParsedFile, SignedBytes, HasRoom, PrintedHeader, Validates, ItemOf, Count, CountAfter;
    hide SignatureIsLost, SignedHeader, CanSign, Reparsed, CountAfterAll, AllSupported, SameContents;
    SigningKeepsContents(s, keys, signer, hashes, grow);
    SignedIsSettled(s, keys[0], signer, hashes, grow);
    var next := SignedBytes(s, keys[0], signer, hashes, grow);
    CountsInTurn(Count(ParsedFile(s, grow).signatureHeader.entries, t), TypesOf(keys), t);
    if |keys| > 1 {
      assert TypesOf(keys)[1..] == TypesOf(keys[1..]);
      SigningCounts(next, keys[1..], signer, hashes, grow, t);
    } else {
      assert SignedByAll(s, keys, signer, hashes, grow) == next;
    }
  }

  // However often a file is signed, written and read again, it is accepted and has the lead, main
  // header and payload it had; and its signatures are those that remain when the tags are counted.
  lemma SigningOverAndOver(s: bytes, keys: seq<PrivateKey>, signer: Signer, hashes: Hashes, grow: Growth)
    requires Settled(s, hashes, grow) && RoomForAll(s, keys, signer, hashes, grow)
    ensures var out := SignedByAll(s, keys, signer, hashes, grow);
            && Settled(out, hashes, grow)
            && AcceptsHeaders(s) && AcceptsHeaders(out) && SameContents(s, out, grow) && AllSupported(TypesOf(keys))
            && (keys != [] ==>
                  SignedBy(ParsedFile(s, grow).signatureHeader, ParsedFile(out, grow).signatureHeader, TypesOf(keys)))
  {
    hide AcceptsHeaders, AcceptsFile, ParsedFile, SignedByAll, RoomForAll, PrintedHeader, Count, CountAfterAll;
    hide SignedBy, SameContents;
    SigningKeepsContents(s, keys, signer, hashes, grow);
    if keys != [] {
      var before, after := ParsedFile(s, grow).signatureHeader,
                           ParsedFile(SignedByAll(s, keys, signer, hashes, grow), grow).signatureHeader;
      SigningCounts(s, keys, signer, hashes, grow, TAG_RSA_HEADER);
      SigningCounts(s, keys, signer, hashes, grow, TAG_DSA_HEADER);
      SigningCounts(s, keys, signer, hashes, grow, TAG_PGP);
      SigningCounts(s, keys, signer, hashes, grow, TAG_GPG);
      CountsTell(before, after, TypesOf(keys));
    }
  }

  // ----- room for all signatures, told from the file at the outset

  // Every key makes a signature of the bytes, which are the same whenever the file is signed.
  predicate AllSign(digested: bytes, keys: seq<PrivateKey>, signer: Signer) {
    forall i :: 0 <= i < |keys| ==>
      && !keys[i].keyType.OtherKey?
      && signer(keys[i], digested).Some? && 0 < |signer(keys[i], digested).value| < U32_LIMIT
  }

  function SignaturesBy(digested: bytes, keys: seq<PrivateKey>, signer: Signer): (signatures: seq<Signature>)
    requires AllSign(digested, keys, signer)
    ensures AllPossible(signatures) && |signatures| == |keys|
  {
    seq(|keys|, i requires 0 <= i < |keys| => Signature(keys[i].keyType, signer(keys[i], digested).value))
  }

  lemma FirstOfSignatures(digested: bytes, keys: seq<PrivateKey>, signer: Signer)
    requires keys != [] && AllSign(digested, keys, signer)
    ensures AllSign(digested, keys[1..], signer) && signer(keys[0], digested).Some?
    ensures SignaturesBy(digested, keys, signer)[0] == Signature(keys[0].keyType, signer(keys[0], digested).value)
    ensures SignaturesBy(digested, keys, signer)[1..] == SignaturesBy(digested, keys[1..], signer)
  {
  }

  // The header can hold one signature after the other: the region of its first trailer covers all
  // entries, signatures and reserved space are BINARY, and no signature is ever shifted.
  predicate Holds(h: Header) {
    Lasting(h) && CoversAll(h) && (HasReservation(h) ==> Reservation(h).format == FORMAT_BINARY)
  }

  lemma HoldingSurvives(h: Header, keyType: KeyType, packet: bytes, grow: Growth)
    requires Holds(h) && |h.entries| < 0x1000_0000 && CanSign(h, keyType, packet, grow)
    requires IndexOf(h.entries, TAG_HEADER_SIGNATURES) >= 0 && TrailerOk(h)
    ensures !keyType.OtherKey? && |packet| < U32_LIMIT && SigningSurvives(h, keyType, packet)
    ensures Holds(SignedHeader(h, keyType, packet, grow))
  {
    hide Lasting, CanSign, SignedHeader, SigningSurvives, CoversAll, HitsNeighbour, TrailerOk;
    PacketIsShort(h, keyType, packet, grow);
    LastingIsFramed(h);
    SigningIsLasting(h, keyType, packet, grow);
    PlainSurvives(h, keyType, packet);
    SurvivalCovers(h, keyType, packet);
    SignedRegion(h, keyType, packet, grow);
    LastingIsFair(h);
    SignedReservation(h, keyType, packet, grow);
  }

  lemma SurvivalCovers(h: Header, keyType: KeyType, packet: bytes)
    requires !keyType.OtherKey? && |packet| < U32_LIMIT && SigningSurvives(h, keyType, packet)
    ensures RegionSurvives(h, keyType, packet)
  {
  }

  lemma LastingIsFair(h: Header)
    requires Lasting(h)
    ensures TrailerHasItsSize(h) && (HasReservation(h) ==> FairReservation(h))
  {
  }

  lemma ReparsedHolds(h: Header, signatures: seq<Signature>, grow: Growth)
    ensures Holds(h) && !h.isMain ==> Holds(Reparsed(h, grow))
    ensures RoomForSignatures(h, signatures) ==> RoomForSignatures(Reparsed(h, grow), signatures)
  {
  }

  // One round, in the header
  lemma HoldingInTurn(h: Header, keyType: KeyType, packet: bytes, more: seq<Signature>, grow: Growth)
    requires Holds(h) && IndexOf(h.entries, TAG_HEADER_SIGNATURES) >= 0 && TrailerOk(h)
    requires Possible(Signature(keyType, packet)) && AllPossible(more)
    requires RoomForSignatures(h, [Signature(keyType, packet)] + more)
    ensures ReadyForSignature(h, keyType, |packet|) && SigningSurvives(h, keyType, packet)
    ensures TrailerHasItsSize(h) && (HasReservation(h) ==> FairReservation(h))
    ensures CanSign(h, keyType, packet, grow)
    ensures var h' := SignedHeader(h, keyType, packet, grow);
            Holds(Reparsed(h', grow)) && RoomForSignatures(Reparsed(h', grow), more)
  {
    hide Lasting, CanSign, SignedHeader, SigningSurvives, RoomForSignatures, ReadyForSignature, FairReservation;
    hide CoversAll, TrailerOk, TrailerHasItsSize;
    var signatures := [Signature(keyType, packet)] + more;
    assert signatures[1..] == more;
    LastingIsFair(h);
    RoomForFirst(h, signatures);
    RoomForRest(h, signatures, grow);
    HoldingSurvives(h, keyType, packet, grow);
    LastingIsFramed(SignedHeader(h, keyType, packet, grow));
    ReparsedHolds(SignedHeader(h, keyType, packet, grow), more, grow);
  }

  lemma HoldingTrailer(s: bytes, hashes: Hashes, grow: Growth)
    requires AcceptsFile(s, hashes, grow) && Holds(ParsedFile(s, grow).signatureHeader)
    ensures var h := ParsedFile(s, grow).signatureHeader;
            IndexOf(h.entries, TAG_HEADER_SIGNATURES) >= 0 && TrailerOk(h)
  {
    hide AcceptsFile, ParsedFile, Lasting, AllOk, TrailerOk, CoversAll;
    assert AcceptsHeaders(s) by { AcceptedHasHeaders(s, hashes, grow); }
    var h := ParsedFile(s, grow).signatureHeader;
    AcceptedIsFramed(s, hashes, grow);
    LastingIsFair(h);
    FramedIsMainless(h);
    FirstTrailerIsOk(h);
  }

  // With room for all signatures in the file at the outset, there is room for each in turn.
  lemma {:induction false} RoomFromTheOutset(
      s: bytes, keys: seq<PrivateKey>, signer: Signer, hashes: Hashes, grow: Growth)
    requires Settled(s, hashes, grow)
    requires var f := ParsedFile(s, grow);
             && AllSign(f.digested, keys, signer) && Holds(f.signatureHeader)
             && RoomForSignatures(f.signatureHeader, SignaturesBy(f.digested, keys, signer))
    ensures RoomForAll(s, keys, signer, hashes, grow)
    decreases |keys|
  {
    hide AcceptsFile, ParsedFile, PrintedHeader, Holds, AllSign, Reparsed, RoomForSignatures, SignaturesBy, TrailerOk;
    hide ReadyForSignature, SigningSurvives, FairReservation, HasReservation, TrailerHasItsSize;
    hide SignedHeader, CanSign, ItemOf, SignatureIsLost, Count, CountAfter, SignedBytes;
    if keys != [] {
      assert AcceptsHeaders(s) by { AcceptedHasHeaders(s, hashes, grow); }
      var f := ParsedFile(s, grow);
      FirstOfSignatures(f.digested, keys, signer);
      var packet := signer(keys[0], f.digested).value;
      var more := SignaturesBy(f.digested, keys[1..], signer);
      KeyMakesSignature(f, keys, signer);
      assert SignaturesBy(f.digested, keys, signer) == [Signature(keys[0].keyType, packet)] + more;
      HoldingTrailer(s, hashes, grow);
      HoldingInTurn(f.signatureHeader, keys[0].keyType, packet, more, grow);
      assert HasRoom(s, keys[0], signer, grow);
      SignedIsSettled(s, keys[0], signer, hashes, grow);
      RoomFromTheOutset(SignedBytes(s, keys[0], signer, hashes, grow), keys[1..], signer, hashes, grow);
    }
  }

  lemma KeyMakesSignature(f: RpmFile, keys: seq<PrivateKey>, signer: Signer)
    requires keys != [] && AllSign(f.digested, keys, signer)
    ensures var signature := SignatureOf(f, keys[0], signer);
            && signature == signer(keys[0], f.digested) && signature.Some?
            && 0 < |signature.value| < U32_LIMIT && !keys[0].keyType.OtherKey?
  {
  }
}
