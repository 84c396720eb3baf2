// Whole files against the format: the lead, the checks of ParseRPM, the bytes between the headers, and
// when a file that was read is written as it was.
module FileLaws {
  import opened Bits
  import opened Utils
  import opened Words
  import opened DynamicArrays
  import opened Headers
  import opened WireFormat
  import opened Editing
  import opened Formats
  import opened HeaderLaws
  import opened RpmFiles

  // ----- the lead

  // Magic number, version, type, architecture, name, operating system, signature type, and 16 bytes
  // that are not used
  lemma LeadSays(s: bytes)
    requires |s| >= 96
    ensures var lead := ParsedLead(s);
            && lead.magic == s[..4] && lead.major == s[4] && lead.minor == s[5]
            && lead.packageType == NumberAt(s, 6, 2) && lead.archNum == NumberAt(s, 8, 2) && lead.name == s[10..76]
            && lead.osNum == NumberAt(s, 76, 2) && lead.signatureType == NumberAt(s, 78, 2)
            && lead.reserved == s[80..96]
  {
    hide ShortOf, Number;
    ShortIsNumber(s[6..8]);
    ShortIsNumber(s[8..10]);
    ShortIsNumber(s[76..78]);
    ShortIsNumber(s[78..80]);
  }

  // ----- the headers

  // The bytes of a file up to its payload: a lead of 96 bytes, a signature header, and a main header
  // at the next multiple of 8.
  ghost predicate IsFile(
    s: bytes, signatures: seq<bytes>, mainStart: nat, contents: seq<bytes>, payloadStart: nat)
  {
    && 112 <= |s| && s[..4] == [0xed, 0xab, 0xee, 0xdb]
    && 96 <= mainStart <= payloadStart <= |s|
    && IsHeader(s[96..], 96, false, signatures, mainStart - 96)
    && IsHeader(s[mainStart..], mainStart, true, contents, payloadStart - mainStart)
  }

  lemma HeaderIsThere(s: bytes, at: nat, isMain: bool, payloads: seq<bytes>, next: nat)
    requires IsHeader(s, at, isMain, payloads, next)
    ensures |s| >= 16 && EndOfHeader(s) <= |s| && |payloads| == EntryCount(s)
    ensures isMain ==> next == EndOfHeader(s)
  {
  }

  // The headers of a file are read if they are there.
  lemma FileIsRead(s: bytes, signatures: seq<bytes>, mainStart: nat, contents: seq<bytes>, payloadStart: nat)
    requires IsFile(s, signatures, mainStart, contents, payloadStart)
    ensures AcceptsHeaders(s) && MainStart(s) == mainStart && PayloadStart(s) == payloadStart
  {
    hide AcceptsHeader, IsHeader, HeaderLength, SaysOfEntries, HeaderEnd, EndOfHeader, StoreOf, IndexIn, FilledAll;
    HeaderIsThere(s[96..], 96, false, signatures, mainStart - 96);
    HeaderSays(s[96..], 96, false, signatures, mainStart - 96);
    assert MainStart(s) == mainStart;
    HeaderIsThere(s[mainStart..], mainStart, true, contents, payloadStart - mainStart);
    HeaderSays(s[mainStart..], mainStart, true, contents, payloadStart - mainStart);
    SizesAre(s[mainStart..]);
  }

  lemma ReadIsFile(s: bytes)
    requires AcceptsHeaders(s)
    ensures HeaderEnd(s[96..]) <= |s| - 96 && MainStart(s) + 16 <= |s|
    ensures HeaderEnd(s[MainStart(s)..]) <= |s| - MainStart(s)
    ensures IsFile(s, PayloadsOf(FilledAll(StoreOf(s[96..]), IndexIn(s[96..]))), MainStart(s),
                   PayloadsOf(FilledAll(StoreOf(s[MainStart(s)..]), IndexIn(s[MainStart(s)..]))), PayloadStart(s))
  {
    hide AcceptsHeader, IsHeader, HeaderEnd, StoreOf, IndexIn, FilledAll, CalcAlignmentByteCount;
    AcceptedSizes(s);
    SaidByHeader(s[96..], 96, false);
    SaidByHeader(s[MainStart(s)..], MainStart(s), true);
    assert HEADER_MAGIC == [0x8e, 0xad, 0xe8];
  }

  lemma ReadIffFile(s: bytes)
    ensures AcceptsHeaders(s) <==>
              exists signatures, mainStart, contents, payloadStart ::
                IsFile(s, signatures, mainStart, contents, payloadStart)
  {
    hide AcceptsHeaders, IsFile, MainStart, PayloadStart;
    if AcceptsHeaders(s) {
      ReadIsFile(s);
    }
    if signatures, mainStart, contents, payloadStart :| IsFile(s, signatures, mainStart, contents, payloadStart) {
      FileIsRead(s, signatures, mainStart, contents, payloadStart);
    }
  }

  // What the parser makes of a file
  lemma ParsedFileIsSaid(
    s: bytes, signatures: seq<bytes>, mainStart: nat, contents: seq<bytes>, payloadStart: nat, grow: Growth)
    requires IsFile(s, signatures, mainStart, contents, payloadStart)
    ensures AcceptsHeaders(s)
    ensures |s[96..]| >= 16 && EndOfHeader(s[96..]) <= |s[96..]| && |signatures| == EntryCount(s[96..])
    ensures |s[mainStart..]| >= 16 && EndOfHeader(s[mainStart..]) <= |s[mainStart..]|
    ensures |contents| == EntryCount(s[mainStart..])
    ensures var f := ParsedFile(s, grow);
            && f.lead == ParsedLead(s)
            && SaysOfEntries(s[96..], signatures, f.signatureHeader.entries)
            && SaysOfEntries(s[mainStart..], contents, f.mainHeader.entries)
            && f.digested == s[mainStart..payloadStart] && f.payloadStart == payloadStart
  {
    hide AcceptsHeaders, IsHeader, HeaderLength, SaysOfEntries, HeaderEnd, EndOfHeader, EntryCount, ParsedHeader;
    hide MainStart, PayloadStart, ParsedLead, StoreOf, IndexIn, FilledAll;
    FileIsRead(s, signatures, mainStart, contents, payloadStart);
    HeaderIsThere(s[96..], 96, false, signatures, mainStart - 96);
    HeaderIsThere(s[mainStart..], mainStart, true, contents, payloadStart - mainStart);
    ParsedIsSaid(s[96..], 96, false, signatures, mainStart - 96, grow);
    ParsedIsSaid(s[mainStart..], mainStart, true, contents, payloadStart - mainStart, grow);
  }

  // ----- hexadecimal digests

  lemma HexCharacterIs(d: nat)
    requires d < 16
    ensures HexCharacter(d) == if d < 10 then 48 + d else 87 + d
  {
  }

  lemma HexDigitIs(c: byte, d: nat)
    requires d < 16
    ensures HexDigit(c) == Some(d) <==> SmallLetters([c]) == [HexCharacter(d)]
  {
    hide HexCharacter;
    HexCharacterIs(d);
    assert SmallLetters([c])[0] == if 65 <= c <= 70 then c + 32 else c;
  }

  lemma TwoDigits(c: byte, c': byte, b: byte)
    ensures HexDigit(c).Some? && HexDigit(c').Some? && HexDigit(c).value * 16 + HexDigit(c').value == b <==>
              SmallLetters([c]) == [HexCharacter(b / 16)] && SmallLetters([c']) == [HexCharacter(b % 16)]
  {
    hide HexDigit, SmallLetters, HexCharacter;
    HexDigitIs(c, b / 16);
    HexDigitIs(c', b % 16);
  }

  lemma SmallLettersOfSum(a: bytes, b: bytes)
    ensures SmallLetters(a + b) == SmallLetters(a) + SmallLetters(b)
  {
  }

  // Decoding succeeds with the digest that the string spells.
  lemma {:induction false} DecodedIsSpelled(s: bytes, digest: bytes)
    ensures HexDecode(s) == Some(digest) <==> SmallLetters(s) == HexEncode(digest)
    decreases |s|
  {
    hide HexDigit, SmallLetters, HexCharacter;
    if |s| >= 2 && digest != [] {
      var c, c', rest := s[0], s[1], s[2..];
      assert s == [c] + ([c'] + rest);
      SmallLettersOfSum([c], [c'] + rest);
      SmallLettersOfSum([c'], rest);
      TwoDigits(c, c', digest[0]);
      DecodedIsSpelled(rest, digest[1..]);
      SameHeads(SmallLetters([c]), SmallLetters([c']), SmallLetters(rest), digest);
      assert digest == [digest[0]] + digest[1..];
      if HexDecode(s).Some? {
        assert HexDecode(s).value[1..] == HexDecode(rest).value;
      }
    }
  }

  lemma SameHeads(a: bytes, b: bytes, rest: bytes, digest: bytes)
    requires |a| == |b| == 1 && digest != []
    ensures a + (b + rest) == HexEncode(digest) <==>
              && a == [HexCharacter(digest[0] / 16)] && b == [HexCharacter(digest[0] % 16)]
              && rest == HexEncode(digest[1..])
  {
    hide HexCharacter;
    var whole, more := a + (b + rest), HexEncode(digest);
    assert more[0] == HexCharacter(digest[0] / 16) && more[1] == HexCharacter(digest[0] % 16);
    assert more[2..] == HexEncode(digest[1..]) && whole[2..] == rest;
    assert a == [whole[0]] && b == [whole[1]];
  }

  // ----- the checks

  // The first entry with a tag
  predicate IsFirst(entries: seq<Entry>, tag: nat, i: nat) {
    i < |entries| && entries[i].tag == tag && forall j :: 0 <= j < i ==> entries[j].tag != tag
  }

  predicate Lacks(entries: seq<Entry>, tag: nat) {
    forall j :: 0 <= j < |entries| ==> entries[j].tag != tag
  }

  predicate IsInt32Entry(e: Entry) {
    e.format == 4 && |e.payload| >= 4
  }

  predicate SpellsDigest(e: Entry, digest: bytes) {
    e.format == 6 && Spells(e.payload, digest)
  }

  // What a file has to be beyond its headers. Its type is binary or source, and its version, which is
  // the low byte of a 32-bit number with tag 5114 or else that of the lead, is at most 4. The region
  // covers all entries of the signature header. A size is there, with tag 257 or else 1000. Digests of
  // the main header, with tags 269 for SHA1 and 273 for SHA256, are right if they are there, and there
  // is one of them or of the MD5 sums with tags 1004 and 261.
  ghost predicate Passes(f: RpmFile, hashes: Hashes) {
    var signatures, contents := f.signatureHeader.entries, f.mainHeader.entries;
    && f.lead.packageType <= 1
    && (forall i: nat :: IsFirst(contents, 5114, i) ==> IsInt32Entry(contents[i]) && contents[i].payload[3] <= 4)
    && (Lacks(contents, 5114) ==> f.lead.major <= 4)
    && f.signatureHeader.signedCount == Some(|signatures|)
    && (exists i: nat ::
          && (IsFirst(signatures, 257, i) || (Lacks(signatures, 257) && IsFirst(signatures, 1000, i)))
          && IsInt32Entry(signatures[i]))
    && (forall i: nat :: IsFirst(signatures, 269, i) ==> SpellsDigest(signatures[i], hashes.sha1(f.digested)))
    && (forall i: nat :: IsFirst(signatures, 273, i) ==> SpellsDigest(signatures[i], hashes.sha256(f.digested)))
    && !(Lacks(signatures, 261) && Lacks(signatures, 269) && Lacks(signatures, 273) && Lacks(signatures, 1004))
  }

  lemma FindIsFirst(entries: seq<Entry>, tag: u32)
    ensures var i := IndexOf(entries, tag);
            && (Lacks(entries, tag) <==> i < 0) && (Find(entries, tag) == None <==> i < 0)
            && (i >= 0 ==> Find(entries, tag) == Some(entries[i]))
            && forall j: nat :: IsFirst(entries, tag, j) <==> j == i
  {
  }

  lemma DigestIsSpelled(e: Option<Entry>, digest: bytes)
    ensures DigestMatches(e, digest) <==> (e.Some? ==> SpellsDigest(e.value, digest))
  {
    hide HexDecode, SmallLetters, HexEncode;
    if e.Some? && e.value.payload != [] {
      DecodedIsSpelled(e.value.payload[..|e.value.payload| - 1], digest);
    }
  }

  lemma LowByte(b: bytes)
    requires |b| == 4
    ensures WordOf(b) % 256 == b[3]
  {
    assert b[2..] == [b[2], b[3]];
  }

  lemma VersionIs(f: RpmFile)
    ensures var contents := f.mainHeader.entries;
            SupportedVersion(f) <==>
              && (forall i: nat :: IsFirst(contents, 5114, i) ==>
                    IsInt32Entry(contents[i]) && contents[i].payload[3] <= 4)
              && (Lacks(contents, 5114) ==> f.lead.major <= 4)
  {
    hide Find, IndexOf, WordOf, IsFirst, Lacks;
    var contents := f.mainHeader.entries;
    FindIsFirst(contents, 5114);
    var i := IndexOf(contents, 5114);
    if i >= 0 {
      assert IsFirst(contents, 5114, i);
    }
    if i >= 0 && |contents[i].payload| >= 4 {
      LowByte(contents[i].payload[..4]);
    }
  }

  lemma FirstsAreThere(entries: seq<Entry>)
    ensures IndexOf(entries, 257) >= 0 ==> IsFirst(entries, 257, IndexOf(entries, 257))
    ensures IndexOf(entries, 1000) >= 0 ==> IsFirst(entries, 1000, IndexOf(entries, 1000))
    ensures IndexOf(entries, 269) >= 0 ==> IsFirst(entries, 269, IndexOf(entries, 269))
    ensures IndexOf(entries, 273) >= 0 ==> IsFirst(entries, 273, IndexOf(entries, 273))
    ensures forall i: nat, tag: nat :: IsFirst(entries, tag, i) ==> i < |entries|
  {
  }

  // The checks of the source are these.
  lemma ValidatesIffPasses(f: RpmFile, hashes: Hashes)
    ensures Validates(f, hashes) <==> Passes(f, hashes)
  {
    hide Find, IndexOf, DigestMatches, SupportedVersion, SpellsDigest, IsFirst, Lacks;
    var signatures := f.signatureHeader.entries;
    VersionIs(f);
    FindIsFirst(signatures, 257);
    FindIsFirst(signatures, 1000);
    FindIsFirst(signatures, 261);
    FindIsFirst(signatures, 1004);
    FindIsFirst(signatures, 269);
    FindIsFirst(signatures, 273);
    FirstsAreThere(signatures);
    DigestIsSpelled(Find(signatures, 269), hashes.sha1(f.digested));
    DigestIsSpelled(Find(signatures, 273), hashes.sha256(f.digested));
  }

  // The parser accepts exactly the files whose headers are there and that pass.
  lemma AcceptedIffPasses(s: bytes, hashes: Hashes, grow: Growth)
    ensures AcceptsFile(s, hashes, grow) <==> AcceptsHeaders(s) && Passes(ParsedFile(s, grow), hashes)
  {
    hide AcceptsHeaders, ParsedFile, Validates, Passes;
    if AcceptsHeaders(s) {
      ValidatesIffPasses(ParsedFile(s, grow), hashes);
    }
  }

  // ----- the bytes between the headers

  // In a written file zeros lead from the signature header to the main header, which is at the next
  // multiple of 8.
  lemma PaddingIsZero(f: RpmFile, payload: bytes)
    ensures var out, front := PrintedFile(f, payload), PrintedLead(f.lead) + PrintedHeader(f.signatureHeader);
            exists mainStart: nat ::
              && |front| <= mainStart < |front| + 8 && mainStart % 8 == 0 && mainStart <= |out|
              && out[..|front|] == front && out[mainStart..] == PrintedHeader(f.mainHeader) + payload
              && forall k :: |front| <= k < mainStart ==> out[k] == 0
  {
    hide PrintedLead, PrintedHeader, CalcAlignmentByteCount;
    var out, front := PrintedFile(f, payload), PrintedLead(f.lead) + PrintedHeader(f.signatureHeader);
    var mainStart := |front| + CalcAlignmentByteCount(|front|, 8);
    assert out == front + Zeros(mainStart - |front|) + (PrintedHeader(f.mainHeader) + payload);
    assert out[mainStart..] == PrintedHeader(f.mainHeader) + payload;
  }

  // ----- parse, then print

  lemma PaddedImage(region: bytes, entries: seq<Entry>, z: nat)
    requires PairwiseDisjoint(Pieces(entries)) && |region| == MaxEnd(Pieces(entries)) + z
    requires forall i :: 0 <= i < |entries| ==> HoldsPiece(region, Pieces(entries)[i])
    ensures Image(Pieces(entries)) + Zeros(z) == region <==>
              forall k :: 0 <= k < |region| && !Covered(Pieces(entries), k) ==> region[k] == 0
  {
    hide MaxEnd, HoldsPiece, PairwiseDisjoint;
    var pieces, padded := Pieces(entries), Image(Pieces(entries)) + Zeros(z);
    forall k | 0 <= k < |region|
      ensures if Covered(pieces, k) then padded[k] == region[k] else padded[k] == 0
    {
      if Covered(pieces, k) {
        var i :| 0 <= i < |pieces| && pieces[i].Covers(k);
        HeldByte(pieces, region, i, k);
        assert k < MaxEnd(pieces);
      } else if k < MaxEnd(pieces) {
        ByteOutside(pieces, k);
      }
    }
  }

  // What is written of a signature header that was read, and z zeros behind it
  lemma PaddedSignatures(s: bytes, at: nat, z: nat, grow: Growth)
    requires AcceptsHeader(s, at, false)
    requires var h := ParsedHeader(s, false, grow);
             StoreStart(s) + MaxEnd(Pieces(h.entries)) + z == HeaderLength(s, at, false)
    ensures var h, start, n := ParsedHeader(s, false, grow), StoreStart(s), HeaderLength(s, at, false);
            && n <= |s| && |PrintedHeader(h)| == start + MaxEnd(Pieces(h.entries))
            && (PrintedHeader(h) + Zeros(z) == s[..n] <==>
                  forall k :: start <= k < n && !Covered(Pieces(h.entries), k - start) ==> s[k] == 0)
  {
    hide WordBytes, Image, IndexBytes, FilledAll, AppendedCapacity, SignedCount, IndexIn, AcceptsHeader, DataBytes;
    hide HoldsPiece, ShapeOk, MaxEnd, AllApart, PairwiseDisjoint, CalcAlignmentByteCount, Covered;
    assert |s| >= 16 && HeaderEnd(s) <= HeaderLength(s, at, false) <= |s| by { AcceptedIsLongEnough(s, at, false); }
    var h, start, n := ParsedHeader(s, false, grow), StoreStart(s), HeaderLength(s, at, false);
    AcceptedHeader(s, at, false, grow);
    AcceptedPayloads(s, at, false, grow);
    AllDataIsWritten(h.entries);
    IndexIsPrinted(s);
    PreambleIsPrinted(s, false, grow);
    var region, image := s[start..n], Image(Pieces(h.entries));
    ImageLength(Pieces(h.entries));
    HeldInRegion(s, h.entries, n);
    PaddedImage(region, h.entries, z);
    var front := s[..16] + s[16..start];
    assert PrintedHeader(h) + Zeros(z) == front + (image + Zeros(z));
    assert s[..n] == front + region;
    SameFront(front, image + Zeros(z), region);
    UncoveredBytes(s, h.entries, start, n);
  }

  lemma ImageLength(pieces: seq<Piece>)
    ensures |Image(pieces)| == MaxEnd(pieces)
  {
  }

  lemma HeldInRegion(s: bytes, entries: seq<Entry>, n: nat)
    requires |s| >= 16 && HeaderEnd(s) <= n <= |s|
    requires forall i :: 0 <= i < |entries| ==> HoldsPiece(StoreOf(s), Pieces(entries)[i])
    ensures forall i :: 0 <= i < |entries| ==> HoldsPiece(s[StoreStart(s)..n], Pieces(entries)[i])
  {
    forall i | 0 <= i < |entries| ensures HoldsPiece(s[StoreStart(s)..n], Pieces(entries)[i]) {
      var piece := Pieces(entries)[i];
      assert HoldsPiece(StoreOf(s), piece);
      SliceOfSlice(s, StoreStart(s), HeaderEnd(s), piece.offset, piece.End());
      SliceOfSlice(s, StoreStart(s), n, piece.offset, piece.End());
    }
  }

  lemma UncoveredBytes(s: bytes, entries: seq<Entry>, start: nat, n: nat)
    requires start <= n <= |s|
    ensures (forall k :: 0 <= k < n - start && !Covered(Pieces(entries), k) ==> s[start..n][k] == 0) <==>
            (forall k :: start <= k < n && !Covered(Pieces(entries), k - start) ==> s[k] == 0)
  {
    hide Covered;
    if forall k :: 0 <= k < n - start && !Covered(Pieces(entries), k) ==> s[start..n][k] == 0 {
      forall k | start <= k < n && !Covered(Pieces(entries), k - start) ensures s[k] == 0 {
        assert s[start..n][k - start] == 0;
      }
    }
  }

  lemma PrintedIsShort(s: bytes, at: nat, isMain: bool, grow: Growth)
    requires AcceptsHeader(s, at, isMain)
    ensures HeaderEnd(s) <= |s|
    ensures var h := ParsedHeader(s, isMain, grow);
            |PrintedHeader(h)| == StoreStart(s) + MaxEnd(Pieces(h.entries)) <= HeaderEnd(s)
  {
    hide WordBytes, Image, IndexBytes, FilledAll, AppendedCapacity, SignedCount, IndexIn, AcceptsHeader, DataBytes;
    hide HoldsPiece, ShapeOk, MaxEnd, AllApart, PairwiseDisjoint;
    assert |s| >= 16 && HeaderEnd(s) <= |s| by { AcceptedIsLongEnough(s, at, isMain); }
    var h := ParsedHeader(s, isMain, grow);
    AcceptedHeader(s, at, isMain, grow);
    AcceptedPayloads(s, at, isMain, grow);
    AllDataIsWritten(h.entries);
    IndexIsPrinted(s);
    PreambleIsPrinted(s, isMain, grow);
    ImageLength(Pieces(h.entries));
    StoreLength(s);
  }

  lemma MainIsPrinted(s: bytes, grow: Growth)
    requires AcceptsHeaders(s)
    ensures 112 <= |s| && MainStart(s) + 16 <= PayloadStart(s) <= |s|
    ensures HeaderEnd(s[MainStart(s)..]) <= |s[MainStart(s)..]|
    ensures var f, m, n := ParsedFile(s, grow), MainStart(s), PayloadStart(s);
            && |PrintedHeader(f.mainHeader)| <= n - m
            && (PrintedHeader(f.mainHeader) == s[m..n] <==> TightStore(StoreOf(s[m..]), f.mainHeader.entries))
  {
    hide AcceptsHeader, ParsedHeader, PrintedHeader, TightStore, StoreOf, HeaderEnd, ParsedLead, MaxEnd, MainStart;
    AcceptedSizes(s);
    var m := MainStart(s);
    PrintedIsShort(s[m..], m, true, grow);
    ParseThenPrint(s[m..], m, true, grow);
    assert s[m..][..HeaderEnd(s[m..])] == s[m..PayloadStart(s)];
  }

  lemma SignatureLength(s: bytes, grow: Growth)
    requires AcceptsHeaders(s)
    ensures 112 <= |s| && HeaderEnd(s[96..]) <= |s[96..]|
    ensures var h := ParsedHeader(s[96..], false, grow);
            var end := 96 + StoreStart(s[96..]) + MaxEnd(Pieces(h.entries));
            && 96 + |PrintedHeader(h)| == end <= MainStart(s) && MainStart(s) % 8 == 0
  {
    hide AcceptsHeader, ParsedHeader, PrintedHeader, HeaderEnd, MaxEnd, StoreStart, CalcAlignmentByteCount;
    AcceptedSizes(s);
    PrintedIsShort(s[96..], 96, false, grow);
  }

  lemma NextBoundary(end: nat, m: nat)
    requires end <= m && m % 8 == 0
    ensures m < end + 8 ==> m == end + CalcAlignmentByteCount(end, 8)
    ensures m >= end + 8 ==> end + CalcAlignmentByteCount(end, 8) < m
  {
    hide CalcAlignmentByteCount;
    var place := end + CalcAlignmentByteCount(end, 8);
    if m < end + 8 {
      PaddingIsLeast(end, 8, m - end);
      SameRemainder(place, m);
    }
  }

  lemma SplitFile(s: bytes, lead: bytes, padded: bytes, main: bytes, m: nat, n: nat)
    requires 96 <= m <= n <= |s| && lead == s[..96] && |padded| == m - 96 && |main| <= n - m
    ensures lead + padded + main == s[..n] <==> padded == s[96..m] && main == s[m..n]
  {
    var whole := lead + padded + main;
    if whole == s[..n] {
      assert padded == whole[96..m] && main == whole[m..];
    }
  }

  lemma ShiftedBytes(s: bytes, entries: seq<Entry>, start: nat, m: nat)
    requires 96 <= m <= |s|
    ensures (forall k :: start <= k < m - 96 && !Covered(Pieces(entries), k - start) ==> s[96..][k] == 0) <==>
            (forall k :: 96 + start <= k < m && !Covered(Pieces(entries), k - (96 + start)) ==> s[k] == 0)
  {
    hide Covered;
    if forall k :: start <= k < m - 96 && !Covered(Pieces(entries), k - start) ==> s[96..][k] == 0 {
      forall k | 96 + start <= k < m && !Covered(Pieces(entries), k - (96 + start)) ensures s[k] == 0 {
        assert s[96..][k - 96] == s[k];
        assert (k - 96) - start == k - (96 + start);
      }
    }
    if forall k :: 96 + start <= k < m && !Covered(Pieces(entries), k - (96 + start)) ==> s[k] == 0 {
      forall k | start <= k < m - 96 && !Covered(Pieces(entries), k - start) ensures s[96..][k] == 0 {
        assert s[96..][k] == s[k + 96];
        assert (k + 96) - (96 + start) == k - start;
      }
    }
  }

  lemma PartsOfFile(f: RpmFile, lead: bytes, z: nat)
    requires lead == PrintedLead(f.lead) && z == CalcAlignmentByteCount(|lead + PrintedHeader(f.signatureHeader)|, 8)
    ensures PrintedHeaders(f) ==
            lead + (PrintedHeader(f.signatureHeader) + Zeros(z)) + PrintedHeader(f.mainHeader)
  {
    hide PrintedLead, PrintedHeader, CalcAlignmentByteCount;
  }

  // Writing what was read gives the bytes up to the payload back exactly if the store of the main header
  // is tight, the data of the signature header ends less than 8 bytes in front of the main header, and
  // everything between its index and the main header that is not data is zero.
  lemma ParseThenPrintFile(s: bytes, grow: Growth)
    requires AcceptsHeaders(s)
    ensures 112 <= |s| && MainStart(s) + 16 <= PayloadStart(s) <= |s|
    ensures HeaderEnd(s[MainStart(s)..]) <= |s[MainStart(s)..]|
    ensures var f := ParsedFile(s, grow);
            var pieces, start := Pieces(f.signatureHeader.entries), 96 + StoreStart(s[96..]);
            PrintedHeaders(f) == s[..PayloadStart(s)] <==>
              && TightStore(StoreOf(s[MainStart(s)..]), f.mainHeader.entries)
              && MainStart(s) < start + MaxEnd(pieces) + 8
              && forall k :: start <= k < MainStart(s) && !Covered(pieces, k - start) ==> s[k] == 0
  {
    hide AcceptsHeader, ParsedHeader, PrintedHeader, TightStore, StoreOf, HeaderEnd, ParsedLead, PrintedLead, MaxEnd;
    hide CalcAlignmentByteCount, Covered, StoreStart;
    AcceptedSizes(s);
    var f, m, n := ParsedFile(s, grow), MainStart(s), PayloadStart(s);
    var sig, main := PrintedHeader(f.signatureHeader), PrintedHeader(f.mainHeader);
    var end := 96 + StoreStart(s[96..]) + MaxEnd(Pieces(f.signatureHeader.entries));
    LeadBytesRoundTrip(s);
    MainIsPrinted(s, grow);
    SignatureLength(s, grow);
    var z := CalcAlignmentByteCount(end, 8);
    assert |PrintedLead(f.lead) + sig| == end;
    PartsOfFile(f, s[..96], z);
    NextBoundary(end, m);
    if m < end + 8 {
      PaddedSignatures(s[96..], 96, z, grow);
      assert s[96..][..m - 96] == s[96..m];
      SplitFile(s, s[..96], sig + Zeros(z), main, m, n);
      ShiftedBytes(s, f.signatureHeader.entries, StoreStart(s[96..]), m);
    } else {
      assert |PrintedHeaders(f)| < n;
    }
  }
}
