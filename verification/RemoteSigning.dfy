// Signing in one place and signing split between a client and a server (common/signing.go:392-441,
// server/server.go:280-296, client/client.go:231-258 and 354-386, client/remotesign.go:17-119).
module RemoteSigning {
  import opened Bits
  import opened DynamicArrays
  import opened Headers
  import opened Layouts
  import opened Editing
  import opened HeaderStores
  import opened EditorRuns
  import opened MapRuns
  import opened Spaces
  import opened Formats
  import opened RpmFiles
  import opened Signing
  import opened SigningRuns
  import opened Progress
  import opened SignedFiles
  import opened FileRuns
  import opened Streams
  import opened Parsing
  import opened Writing

  // ----- what can be written after edits

  // A header that was laid out is written without an error or a panic, and its data store
  // is as long as the header says.
  lemma SettledCanBeWritten(h: Header)
    requires Framed(h) && Packed(h) && Space(h) + 1 < U32_LIMIT
    ensures CanWrite(h) && Aligned(h.entries) && |Image(Pieces(h.entries))| == h.storeSize
  {
    hide Packed, MaxEnd, Aligned, AllApart;
    SpaceFits(h);
    PackedIsApart(h);
    ApartIsDisjoint(h.entries);
    PackedMaxEnd(h);
    PackedEndsWithStore(h);
    AllNonEmpty(Pieces(h.entries));
  }

  // After every run of edits the header can be written.
  lemma RunCanBeWritten(h: Header, ops: seq<Op>, grow: Growth)
    requires Framed(h) && CanRun(h, ops, grow) && |h.entries| < 0x1000_0000
    requires Packed(h) || Touches(h, ops)
    requires InCheck(h, ops) && Space(h) + 1 < U32_LIMIT
    ensures var h' := Run(h, ops, grow);
            CanWrite(h') && Aligned(h'.entries) && |Image(Pieces(h'.entries))| == h'.storeSize
  {
    hide Framed, Packed, Space, InCheck, CanWrite, Aligned;
    RunIsFramed(h, ops, grow);
    RunSpace(h, ops, grow);
    SettledCanBeWritten(Run(h, ops, grow));
  }

  // ----- SignRpm

  // SignRpm, step by step
  lemma SigningSteps(h: Header, keyType: KeyType, packet: bytes, grow: Growth)
    requires CanSign(h, keyType, packet, grow)
    ensures CanDelete(h, OtherSignatureTag(keyType))
    ensures var h1 := Delete(h, OtherSignatureTag(keyType));
            && CanDelete(h1, TAG_PGP) && CanDelete(Delete(h1, TAG_PGP), TAG_PGP5)
            && CanDelete(Delete(Delete(h1, TAG_PGP), TAG_PGP5), TAG_GPG)
            && CanSet(Delete(Delete(Delete(h1, TAG_PGP), TAG_PGP5), TAG_GPG),
                      SignatureTag(keyType), FORMAT_BINARY, packet)
            && SignedHeader(h, keyType, packet, grow) ==
               SetOrAdd(Delete(Delete(Delete(h1, TAG_PGP), TAG_PGP5), TAG_GPG), SignatureTag(keyType),
                        FORMAT_BINARY, |packet|, packet, grow)
  {
    hide Delete, SetOrAdd, HasData, Roomy, KnownFormats, TrailerHasItsSize;
    var ops := SigningOps(keyType, packet);
    var h1 := Delete(h, OtherSignatureTag(keyType));
    assert ops[1..] == [DeleteOp(TAG_PGP), DeleteOp(TAG_PGP5), DeleteOp(TAG_GPG), SignatureOp(keyType, packet)];
    assert CanRun(h1, ops[1..], grow) && SignedHeader(h, keyType, packet, grow) == Run(h1, ops[1..], grow);
    var h2 := Delete(h1, TAG_PGP);
    assert ops[1..][1..] == [DeleteOp(TAG_PGP5), DeleteOp(TAG_GPG), SignatureOp(keyType, packet)];
    assert CanRun(h2, ops[1..][1..], grow) && Run(h1, ops[1..], grow) == Run(h2, ops[1..][1..], grow);
    var h3 := Delete(h2, TAG_PGP5);
    assert ops[1..][1..][1..] == [DeleteOp(TAG_GPG), SignatureOp(keyType, packet)];
    assert CanRun(h3, ops[1..][1..][1..], grow) && Run(h2, ops[1..][1..], grow) == Run(h3, ops[1..][1..][1..], grow);
    var h4 := Delete(h3, TAG_GPG);
    assert ops[1..][1..][1..][1..] == [SignatureOp(keyType, packet)];
    RunOne(h4, SignatureOp(keyType, packet), grow);
  }

  // An unsupported key, or a signature that cannot be made, leaves the header alone.
  method SignRpm(header: RpmHeader, ghost f: RpmFile, digested: bytes, key: PrivateKey, signer: Signer)
    returns (ok: bool)
    requires header.Value() == f.signatureHeader && digested == f.digested
    requires CanSignFile(f, key, signer, header.grow)
    modifies header
    ensures ok <==> SignedFile(f, key, signer, header.grow).Some?
    ensures header.Value() ==
            if ok then SignedFile(f, key, signer, header.grow).value.signatureHeader else f.signatureHeader
  {
    hide CanSign, SignedHeader, CanDelete, CanSet, Delete, SetOrAdd;
    if key.keyType.OtherKey? {
      return false;
    }
    var openPgpPacketData := signer(key, digested);
    if openPgpPacketData.None? {
      return false;
    }
    var packet := openPgpPacketData.value;
    SigningSteps(header.Value(), key.keyType, packet, header.grow);
    PacketIsShort(header.Value(), key.keyType, packet, header.grow);
    var newEntryTag := TAG_DSA_HEADER;
    if key.keyType.RSA? {
      newEntryTag := TAG_RSA_HEADER;
      header.DeleteIndexEntryIfExists(TAG_DSA_HEADER);
    } else {
      header.DeleteIndexEntryIfExists(TAG_RSA_HEADER);
    }
    header.DeleteIndexEntryIfExists(TAG_PGP);
    header.DeleteIndexEntryIfExists(TAG_PGP5);
    header.DeleteIndexEntryIfExists(TAG_GPG);
    header.SetOrAddIndexEntry(newEntryTag, FORMAT_BINARY, |packet|, packet);
    ok := true;
  }

  // ----- the whole way from bytes to bytes

  // Signing the file s does not panic: neither SignRpm, if s is accepted, nor writing the result.
  ghost predicate SafeToSign(s: bytes, key: PrivateKey, signer: Signer, hashes: Hashes, grow: Growth) {
    AcceptsFile(s, hashes, grow) ==>
      var f := ParsedFile(s, grow);
      && CanSignFile(f, key, signer, grow) && CanWrite(f.mainHeader)
      && var signed := SignedFile(f, key, signer, grow);
         signed.Some? ==> CanWrite(signed.value.signatureHeader)
  }

  // What a caller can check beforehand: the signature header can be edited, and there is room for
  // the signature.
  ghost predicate RoomToSign(s: bytes, key: PrivateKey, signer: Signer, hashes: Hashes, grow: Growth) {
    AcceptsFile(s, hashes, grow) ==>
      var f := ParsedFile(s, grow);
      var signature := SignatureOf(f, key, signer);
      && f.mainHeader.storeSize + 1 < U32_LIMIT
      && (signature.Some? ==>
            && signature.value != [] && TrailerHasItsSize(f.signatureHeader)
            && (HasReservation(f.signatureHeader) ==> FairReservation(f.signatureHeader))
            && ReadyForSignature(f.signatureHeader, key.keyType, |signature.value|))
  }

  // With room to sign, signing does not panic, and the signature header can be written.
  lemma RoomIsSafe(s: bytes, key: PrivateKey, signer: Signer, hashes: Hashes, grow: Growth)
    requires RoomToSign(s, key, signer, hashes, grow)
    ensures SafeToSign(s, key, signer, hashes, grow)
    ensures AcceptsFile(s, hashes, grow) ==>
              var signed := SignedFile(ParsedFile(s, grow), key, signer, grow);
              signed.Some? ==> Aligned(signed.value.signatureHeader.entries)
  {
    hide ParsedHeader, AcceptsHeader, Validates, CanSign, SignedHeader, CanWrite, Aligned, Framed, Packed, Space;
    hide HasReservation, FairReservation, MainStart, PayloadStart, HeaderEnd, ReadyForSignature, TrailerHasItsSize;
    if AcceptsFile(s, hashes, grow) {
      var f, signature := ParsedFile(s, grow), SignatureOf(ParsedFile(s, grow), key, signer);
      MainCanBeWritten(s, grow);
      if signature.Some? {
        RoomIsEnough(s, key.keyType, signature.value, hashes, grow);
        SigningKeepsFrame(f.signatureHeader, key.keyType, signature.value, grow);
        SettledCanBeWritten(SignedHeader(f.signatureHeader, key.keyType, signature.value, grow));
      }
    }
  }

  lemma MainCanBeWritten(s: bytes, grow: Growth)
    requires AcceptsHeaders(s) && ParsedFile(s, grow).mainHeader.storeSize + 1 < U32_LIMIT
    ensures CanWrite(ParsedFile(s, grow).mainHeader)
  {
    hide AcceptsHeader, CanWrite, MainStart, FilledAll, IndexIn, StoreOf, AppendedCapacity, SignedCount, PayloadStart;
    AcceptedSizes(s);
    AcceptedCanBeWritten(s[MainStart(s)..], MainStart(s), true, grow);
  }

  // What signing the file s in one place writes, or None if it ends in an error
  ghost function LocalOutput(s: bytes, key: PrivateKey, signer: Signer, hashes: Hashes, grow: Growth): Option<bytes>
    requires SafeToSign(s, key, signer, hashes, grow)
  {
    if !AcceptsFile(s, hashes, grow) then None
    else
      var f := ParsedFile(s, grow);
      var signed := SignedFile(f, key, signer, grow);
      if signed.None? || !Aligned(signed.value.signatureHeader.entries) || !Aligned(f.mainHeader.entries) then None
      else
        PayloadStartIsInside(s, grow);
        Some(PrintedFile(signed.value, s[f.payloadStart..]))
  }

  // For a file that is ready to be signed this is the signed file, unless its main header is
  // misaligned and cannot be written.
  lemma ReadyIsSigned(s: bytes, key: PrivateKey, signer: Signer, hashes: Hashes, grow: Growth)
    requires Ready(s, key, signer, hashes, grow) && ParsedFile(s, grow).mainHeader.storeSize + 1 < U32_LIMIT
    ensures SafeToSign(s, key, signer, hashes, grow)
    ensures LocalOutput(s, key, signer, hashes, grow) ==
            if Aligned(ParsedFile(s, grow).mainHeader.entries) then Some(SignedBytes(s, key, signer, hashes, grow))
            else None
  {
    hide ParsedFile, ReadyForSignature, PrintedHeader, Validates, Aligned, PrintedFile, CanSign, SignedHeader;
    hide SigningSurvives, IsReadBack;
    assert RoomToSign(s, key, signer, hashes, grow);
    RoomIsSafe(s, key, signer, hashes, grow);
    ReadyIsReadBack(s, key, signer, hashes, grow);
  }

  // What the client writes: the answer of the server to the bytes in front of the payload, and
  // then the payload
  ghost function RemoteOutput(s: bytes, key: PrivateKey, signer: Signer, hashes: Hashes, grow: Growth): Option<bytes>
    requires SafeToSign(s, key, signer, hashes, grow)
  {
    if !AcceptsFile(s, hashes, grow) then None
    else
      CutIsSafe(s, key, signer, hashes, grow);
      var n := ParsedFile(s, grow).payloadStart;
      var answer := LocalOutput(s[..n], key, signer, hashes, grow);
      if answer.None? then None else Some(answer.value + s[n..])
  }

  // The server sees the file that the client sees.
  lemma CutParses(s: bytes, hashes: Hashes, grow: Growth)
    requires AcceptsFile(s, hashes, grow)
    ensures AcceptsHeaders(s) && ParsedFile(s, grow).payloadStart <= |s|
    ensures var n := ParsedFile(s, grow).payloadStart;
            && AcceptsFile(s[..n], hashes, grow) && ParsedFile(s[..n], grow) == ParsedFile(s, grow)
  {
    hide AcceptsHeaders, Validates, ParsedLead, ParsedHeader, MainStart;
    assert AcceptsHeaders(s) by { AcceptedHasHeaders(s, hashes, grow); }
    PayloadStartIsInside(s, grow);
    var n := ParsedFile(s, grow).payloadStart;
    assert s[..n][..n] == s[..n];
    ParsedPayloadStart(s, grow);
    FileParsingIsLocal(s, s[..n], grow);
  }

  lemma ParsedPayloadStart(s: bytes, grow: Growth)
    requires AcceptsHeaders(s)
    ensures |s| >= 112 && MainStart(s) + 16 <= |s| && ParsedFile(s, grow).payloadStart == PayloadStart(s)
  {
    AcceptedSizes(s);
  }

  lemma CutIsSafe(s: bytes, key: PrivateKey, signer: Signer, hashes: Hashes, grow: Growth)
    requires AcceptsFile(s, hashes, grow) && SafeToSign(s, key, signer, hashes, grow)
    ensures AcceptsHeaders(s) && ParsedFile(s, grow).payloadStart <= |s|
    ensures SafeToSign(s[..ParsedFile(s, grow).payloadStart], key, signer, hashes, grow)
  {
    hide AcceptsFile, ParsedFile;
    CutParses(s, hashes, grow);
  }

  // Signing remotely and signing locally write the same bytes, for every file, and fail for the
  // same files.
  lemma RemoteEqualsLocal(s: bytes, key: PrivateKey, signer: Signer, hashes: Hashes, grow: Growth)
    requires SafeToSign(s, key, signer, hashes, grow)
    ensures RemoteOutput(s, key, signer, hashes, grow) == LocalOutput(s, key, signer, hashes, grow)
  {
    hide AcceptsFile, ParsedFile, SafeToSign, Aligned, PrintedHeaders, SignedFile;
    if AcceptsFile(s, hashes, grow) {
      CutParses(s, hashes, grow);
      CutIsSafe(s, key, signer, hashes, grow);
      var n := ParsedFile(s, grow).payloadStart;
      assert s[..n][n..] == [];
      forall f: RpmFile ensures PrintedFile(f, []) + s[n..] == PrintedFile(f, s[n..]) {
        assert PrintedHeaders(f) + [] == PrintedHeaders(f);
      }
    }
  }

  lemma AnswerIsGlued(s: bytes, key: PrivateKey, signer: Signer, hashes: Hashes, grow: Growth)
    requires AcceptsFile(s, hashes, grow) && SafeToSign(s, key, signer, hashes, grow)
    ensures AcceptsHeaders(s) && ParsedFile(s, grow).payloadStart <= |s|
    ensures var n := ParsedFile(s, grow).payloadStart;
            && SafeToSign(s[..n], key, signer, hashes, grow)
            && var answer := LocalOutput(s[..n], key, signer, hashes, grow);
               LocalOutput(s, key, signer, hashes, grow) ==
               if answer.None? then None else Some(answer.value + s[n..])
  {
    hide AcceptsFile, ParsedFile, SafeToSign, LocalOutput;
    CutIsSafe(s, key, signer, hashes, grow);
    RemoteEqualsLocal(s, key, signer, hashes, grow);
  }

  lemma NothingWithoutAFile(s: bytes, key: PrivateKey, signer: Signer, hashes: Hashes, grow: Growth)
    requires SafeToSign(s, key, signer, hashes, grow) && !AcceptsFile(s, hashes, grow)
    ensures LocalOutput(s, key, signer, hashes, grow).None?
  {
    hide AcceptsFile, ParsedFile, SafeToSign;
  }

  // ----- the pipelines

  // SignRpmAndWrite
  method SignRpmAndWrite(w: Output, f: RpmFile, payload: Input, key: PrivateKey, signer: Signer, grow: Growth)
    returns (ok: bool)
    requires CanSignFile(f, key, signer, grow) && CanWrite(f.mainHeader)
    requires var signed := SignedFile(f, key, signer, grow);
             signed.Some? ==> CanWrite(signed.value.signatureHeader)
    requires w.data == [] && payload.Valid()
    modifies w, payload
    ensures var signed := SignedFile(f, key, signer, grow);
            && (ok <==> signed.Some? && Aligned(signed.value.signatureHeader.entries) && Aligned(f.mainHeader.entries))
            && (ok ==> w.data == PrintedFile(signed.value, old(payload.Rest())))
  {
    hide CanSignFile, CanWrite, Aligned, PrintedFile, SignedHeader;
    var signatureHeader := new RpmHeader(f.signatureHeader, grow);
    ok := SignRpm(signatureHeader, f, f.digested, key, signer);
    if ok {
      ok := WriteRpm(w, f.(signatureHeader := signatureHeader.Value()), payload);
    }
  }

  // Signing in one place, which is also what the server does with the bytes it receives
  method SignRpmData(w: Output, s: Input, key: PrivateKey, signer: Signer, hashes: Hashes, grow: Growth)
    returns (ok: bool)
    requires s.Valid() && s.pos == 0 && s.seen.offset == 0 && w.data == []
    requires SafeToSign(s.source, key, signer, hashes, grow)
    modifies w, s
    ensures var output := LocalOutput(s.source, key, signer, hashes, grow);
            (ok <==> output.Some?) && (ok ==> w.data == output.value)
  {
    hide AcceptsFile, ParsedFile, CanSignFile, SignedFile, CanWrite, Aligned, PrintedFile;
    var f;
    ok, f := ParseRpm(s, hashes, grow);
    if ok {
      AcceptedHasHeaders(s.source, hashes, grow);
      PayloadStartIsInside(s.source, grow);
      ok := SignRpmAndWrite(w, f, s, key, signer, grow);
    }
  }

  // Sends the bytes in front of the payload, and writes the answer and then the rest of the file.
  method SignRpmRemotely(
    dest: Output, rpmHeader: bytes, payload: Input, key: PrivateKey, signer: Signer, hashes: Hashes, grow: Growth,
    requestChunks: nat -> nat, responseChunks: nat -> nat, eager: nat -> bool)
    returns (ok: bool)
    requires payload.Valid() && dest.data == []
    requires SafeToSign(rpmHeader, key, signer, hashes, grow)
    modifies dest, payload
    ensures var answer := LocalOutput(rpmHeader, key, signer, hashes, grow);
            (ok <==> answer.Some?) && dest.data == if ok then answer.value + old(payload.Rest()) else []
    ensures !old(payload.seen.capturing) ==> payload.seen.captured == old(payload.seen.captured)
  {
    hide SafeToSign, LocalOutput;
    var answer := Serve(rpmHeader, requestChunks, eager, key, signer, hashes, grow);
    if answer.None? {
      return false;
    }
    var response := new Input(answer.value, responseChunks, eager, false);
    dest.CopyFrom(response);
    assert dest.data == answer.value;
    dest.CopyFrom(payload);
    ok := true;
  }

  // The client captures what the parser reads and has the server sign it. However the file, the
  // request and the answer are cut up on their way, exactly the bytes in front of the payload
  // are sent, and what is written is what signing in one place would have written.
  method SignAsClient(
    dest: Output, s: Input, key: PrivateKey, signer: Signer, hashes: Hashes, grow: Growth,
    requestChunks: nat -> nat, responseChunks: nat -> nat, eager: nat -> bool)
    returns (ok: bool)
    requires s.Valid() && s.pos == 0 && s.seen == Observers(true, [], 0, []) && dest.data == []
    requires SafeToSign(s.source, key, signer, hashes, grow)
    modifies dest, s
    ensures var output := LocalOutput(s.source, key, signer, hashes, grow);
            (ok <==> output.Some?) && dest.data == if ok then output.value else []
    ensures AcceptsFile(s.source, hashes, grow) ==>
              && ParsedFile(s.source, grow).payloadStart <= |s.source|
              && s.seen.captured == s.source[..ParsedFile(s.source, grow).payloadStart]
  {
    hide AcceptsFile, ParsedFile, SafeToSign, LocalOutput;
    var f;
    ok, f := ParseRpm(s, hashes, grow);
    if !ok {
      NothingWithoutAFile(s.source, key, signer, hashes, grow);
      return;
    }
    s.StopCapturing();
    var rpmHeader := s.seen.captured;
    assert rpmHeader == s.source[..f.payloadStart];
    AnswerIsGlued(s.source, key, signer, hashes, grow);
    ok := SignRpmRemotely(dest, rpmHeader, s, key, signer, hashes, grow, requestChunks, responseChunks, eager);
  }

  // The server answers with the signed header, or with an error status.
  method Serve(
    request: bytes, chunks: nat -> nat, eager: nat -> bool,
    key: PrivateKey, signer: Signer, hashes: Hashes, grow: Growth)
    returns (answer: Option<bytes>)
    requires SafeToSign(request, key, signer, hashes, grow)
    ensures answer == LocalOutput(request, key, signer, hashes, grow)
  {
    var signedData := new Output();
    var body := new Input(request, chunks, eager, false);
    var ok := SignRpmData(signedData, body, key, signer, hashes, grow);
    answer := if ok then Some(signedData.data) else None;
  }
}
