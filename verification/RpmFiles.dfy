// A whole RPM file (common/rpmparser.go:1030-1160 and 1340-1581): lead, signature header, main
// header and payload.
module RpmFiles {
  import opened Bits
  import opened Utils
  import opened Words
  import opened DynamicArrays
  import opened Headers
  import opened Editing
  import opened Formats

  // ----- the lead

  const LEAD_MAGIC: bytes := [0xed, 0xab, 0xee, 0xdb]

  datatype Lead = Lead(
    magic: bytes,
    major: byte,
    minor: byte,
    packageType: u16,
    archNum: u16,
    name: bytes,
    osNum: u16,
    signatureType: u16,
    reserved: bytes)

  predicate WellFormedLead(lead: Lead) {
    lead.magic == LEAD_MAGIC && |lead.name| == 66 && |lead.reserved| == 16
  }

  function PrintedLead(lead: Lead): bytes {
    lead.magic + [lead.major] + [lead.minor] + ShortBytes(lead.packageType) + ShortBytes(lead.archNum)
    + lead.name + ShortBytes(lead.osNum) + ShortBytes(lead.signatureType) + lead.reserved
  }

  function ParsedLead(s: bytes): Lead
    requires |s| >= 96
  {
    Lead(s[..4], s[4], s[5], ShortOf(s[6..8]), ShortOf(s[8..10]), s[10..76],
         ShortOf(s[76..78]), ShortOf(s[78..80]), s[80..96])
  }

  lemma ShortRoundTrip(d: u16)
    ensures ShortOf(ShortBytes(d)) == d
  {
  }

  lemma ShortIsInjective(b: bytes)
    requires |b| == 2
    ensures ShortBytes(ShortOf(b)) == b
  {
  }

  // Print then parse is the identity on leads, and parse then print on their 96 bytes.
  lemma LeadRoundTrip(lead: Lead, rest: bytes)
    requires WellFormedLead(lead)
    ensures |PrintedLead(lead)| == 96 && ParsedLead(PrintedLead(lead) + rest) == lead
  {
    hide ShortBytes, ShortOf;
    var s := PrintedLead(lead) + rest;
    assert s[6..8] == ShortBytes(lead.packageType) && s[8..10] == ShortBytes(lead.archNum);
    assert s[76..78] == ShortBytes(lead.osNum) && s[78..80] == ShortBytes(lead.signatureType);
    ShortRoundTrip(lead.packageType);
    ShortRoundTrip(lead.archNum);
    ShortRoundTrip(lead.osNum);
    ShortRoundTrip(lead.signatureType);
  }

  lemma LeadBytesRoundTrip(s: bytes)
    requires |s| >= 96
    ensures PrintedLead(ParsedLead(s)) == s[..96]
  {
    hide ShortBytes, ShortOf;
    ShortIsInjective(s[6..8]);
    ShortIsInjective(s[8..10]);
    ShortIsInjective(s[76..78]);
    ShortIsInjective(s[78..80]);
  }

  // ----- files

  // The hash functions, of which nothing is known
  datatype Hashes = Hashes(sha1: bytes -> bytes, sha256: bytes -> bytes)

  // digested is what the digests over the main header have absorbed; payloadStart is where the
  // parser left the reader.
  datatype RpmFile = RpmFile(
    lead: Lead,
    signatureHeader: Header,
    mainHeader: Header,
    digested: bytes,
    payloadStart: nat)

  function HexDigit(b: byte): (d: Option<nat>)
    ensures d.Some? ==> d.value < 16
  {
    if 48 <= b <= 57 then Some(b - 48)
    else if 97 <= b <= 102 then Some(b - 87)
    else if 65 <= b <= 70 then Some(b - 55)
    else None
  }

  function HexDecode(s: bytes): Option<bytes> {
    if s == [] then Some([])
    else if |s| == 1 || HexDigit(s[0]).None? || HexDigit(s[1]).None? then None
    else
      var rest := HexDecode(s[2..]);
      var b := HexDigit(s[0]).value * 16 + HexDigit(s[1]).value;
      if rest.None? then None else Some([b] + rest.value)
  }

  // An entry that is there has to be a STRING with the hexadecimal digest.
  predicate DigestMatches(e: Option<Entry>, digest: bytes) {
    e.Some? ==>
      && e.value.format == FORMAT_STRING && e.value.payload != []
      && HexDecode(e.value.payload[..|e.value.payload| - 1]) == Some(digest)
  }

  function SizeEntry(h: Header): Option<Entry> {
    var e := Find(h.entries, TAG_SIG_SIZE);
    if e.Some? then e else Find(h.entries, TAG_SIZE)
  }

  function Md5Entry(h: Header): Option<Entry> {
    var e := Find(h.entries, TAG_MD5);
    if e.Some? then e else Find(h.entries, TAG_SIG_MD5)
  }

  predicate IsInt32(e: Entry) {
    e.format == FORMAT_INT32 && |e.payload| >= 4
  }

  // GetFileFormatVersion: the RPMFORMAT entry of the main header, or else the lead
  predicate SupportedVersion(f: RpmFile) {
    var e := Find(f.mainHeader.entries, TAG_RPMFORMAT);
    if e.Some? then IsInt32(e.value) && WordOf(e.value.payload[..4]) % 256 <= 4
    else f.lead.major <= 4
  }

  // What ParseRPM checks of the headers it has read, without the check over the payload
  predicate Validates(f: RpmFile, hashes: Hashes) {
    var h := f.signatureHeader;
    var sha1Entry, sha256Entry := Find(h.entries, TAG_SHA1_HEADER), Find(h.entries, TAG_SHA256_HEADER);
    && SizeEntry(h).Some? && IsInt32(SizeEntry(h).value)
    && f.lead.packageType <= 1
    && h.signedCount.Some? && SupportedVersion(f) && h.signedCount.value == |h.entries|
    && DigestMatches(sha1Entry, hashes.sha1(f.digested))
    && DigestMatches(sha256Entry, hashes.sha256(f.digested))
    && (Md5Entry(h).Some? || sha1Entry.Some? || sha256Entry.Some?)
  }

  function MainStart(s: bytes): nat
    requires |s| >= 112
  {
    96 + HeaderLength(s[96..], 96, false)
  }

  // The parser gets as far as the payload.
  ghost predicate AcceptsHeaders(s: bytes) {
    && |s| >= 112 && s[..4] == LEAD_MAGIC
    && AcceptsHeader(s[96..], 96, false)
    && MainStart(s) <= |s|
    && AcceptsHeader(s[MainStart(s)..], MainStart(s), true)
  }

  function PayloadStart(s: bytes): nat
    requires |s| >= 112 && MainStart(s) + 16 <= |s|
  {
    MainStart(s) + HeaderEnd(s[MainStart(s)..])
  }

  lemma AcceptedSizes(s: bytes)
    requires AcceptsHeaders(s)
    ensures 112 <= |s| && MainStart(s) + 16 <= PayloadStart(s) <= |s|
    ensures HeaderEnd(s[96..]) <= |s| - 96
    ensures HeaderEnd(s[MainStart(s)..]) <= |s| - MainStart(s)
  {
    hide AcceptsHeader, CalcAlignmentByteCount, StoreSizeOf, EntryCountOf;
    AcceptedIsLongEnough(s[96..], 96, false);
    AcceptedIsLongEnough(s[MainStart(s)..], MainStart(s), true);
  }

  ghost function ParsedFile(s: bytes, grow: Growth): RpmFile
    requires AcceptsHeaders(s)
  {
    AcceptedSizes(s);
    RpmFile(ParsedLead(s), ParsedHeader(s[96..], false, grow), ParsedHeader(s[MainStart(s)..], true, grow),
            s[MainStart(s)..PayloadStart(s)], PayloadStart(s))
  }

  // ParseRPM returns a file.
  ghost predicate AcceptsFile(s: bytes, hashes: Hashes, grow: Growth) {
    AcceptsHeaders(s) && Validates(ParsedFile(s, grow), hashes)
  }

  // ----- writing

  function PadTo8(b: bytes): bytes {
    b + Zeros(CalcAlignmentByteCount(|b|, 8))
  }

  // The main header is aligned, the payload follows it immediately.
  function PrintedHeaders(f: RpmFile): bytes {
    PadTo8(PrintedLead(f.lead) + PrintedHeader(f.signatureHeader)) + PrintedHeader(f.mainHeader)
  }

  function PrintedFile(f: RpmFile, payload: bytes): bytes {
    PrintedHeaders(f) + payload
  }

  ghost predicate WellFormedFile(f: RpmFile) {
    && WellFormedLead(f.lead)
    && WellFormedHeader(f.signatureHeader) && !f.signatureHeader.isMain
    && WellFormedHeader(f.mainHeader) && f.mainHeader.isMain
  }

  // What the parser makes of a well-formed file that was written
  function ReparsedFile(f: RpmFile, grow: Growth): RpmFile {
    f.(signatureHeader := Reparsed(f.signatureHeader, grow), mainHeader := Reparsed(f.mainHeader, grow),
       digested := PrintedHeader(f.mainHeader), payloadStart := |PrintedHeaders(f)|)
  }

  lemma PrintedLength(h: Header)
    requires WellFormedHeader(h)
    ensures |PrintedHeader(h)| == 16 + 16 * |h.entries| + h.storeSize
  {
    hide WordBytes, IndexBytes, MaxEnd;
    AllDataIsWritten(h.entries);
    assert |Image(Pieces(h.entries))| == h.storeSize;
  }

  // Where a written file has its parts, whatever its main header
  lemma PrintedFront(f: RpmFile, payload: bytes, grow: Growth)
    requires WellFormedLead(f.lead) && WellFormedHeader(f.signatureHeader) && !f.signatureHeader.isMain
    ensures var s, sig, main := PrintedFile(f, payload), PrintedHeader(f.signatureHeader), PrintedHeader(f.mainHeader);
            && |s| >= 112 && s[..4] == LEAD_MAGIC && ParsedLead(s) == f.lead
            && AcceptsHeader(s[96..], 96, false) && HeaderEnd(s[96..]) == |sig| <= |s| - 96
            && ParsedHeader(s[96..], false, grow) == Reparsed(f.signatureHeader, grow)
            && MainStart(s) == 96 + |sig| + CalcAlignmentByteCount(96 + |sig|, 8) <= |s|
            && s[MainStart(s)..] == main + payload && MainStart(s) + |main| == |PrintedHeaders(f)|
  {
    hide PrintedLead, PrintedHeader, WellFormedHeader, ParsedLead, ParsedHeader, AcceptsHeader, HeaderEnd;
    hide CalcAlignmentByteCount, Reparsed;
    var s := PrintedFile(f, payload);
    var lead, sig, main := PrintedLead(f.lead), PrintedHeader(f.signatureHeader), PrintedHeader(f.mainHeader);
    PrintedLength(f.signatureHeader);
    var padding := CalcAlignmentByteCount(96 + |sig|, 8);
    var tail := Zeros(padding) + main + payload;
    LeadRoundTrip(f.lead, sig + tail);
    assert s == lead + (sig + tail);
    assert s[96..] == sig + tail;
    LeadStartsWithMagic(f.lead, s, sig + tail);
    SignaturePart(f.signatureHeader, tail, grow);
    assert MainStart(s) == 96 + |sig| + padding;
    assert s[MainStart(s)..] == main + payload;
  }

  // Print, then parse: lead, both headers and the digested bytes come back, and the payload is
  // found where it was put.
  lemma PrintThenParseFile(f: RpmFile, payload: bytes, grow: Growth)
    requires WellFormedFile(f)
    ensures AcceptsHeaders(PrintedFile(f, payload))
    ensures ParsedFile(PrintedFile(f, payload), grow) == ReparsedFile(f, grow)
    ensures var sigLength := 16 + 16 * |f.signatureHeader.entries| + f.signatureHeader.storeSize;
            ParsedFile(PrintedFile(f, payload), grow).payloadStart ==
            96 + sigLength + CalcAlignmentByteCount(sigLength, 8)
            + 16 + 16 * |f.mainHeader.entries| + f.mainHeader.storeSize
    ensures PrintedFile(f, payload)[ParsedFile(PrintedFile(f, payload), grow).payloadStart..] == payload
  {
    hide PrintedLead, PrintedHeader, WellFormedHeader, ParsedLead, ParsedHeader, AcceptsHeader, HeaderEnd;
    hide CalcAlignmentByteCount, PrintedFile, PrintedHeaders, Reparsed, MainStart;
    var s := PrintedFile(f, payload);
    var sig, main := PrintedHeader(f.signatureHeader), PrintedHeader(f.mainHeader);
    PrintedLength(f.signatureHeader);
    PrintedLength(f.mainHeader);
    PrintedFront(f, payload, grow);
    MainPart(f.mainHeader, MainStart(s), payload, grow);
    assert s[MainStart(s)..PayloadStart(s)] == main by {
      assert s[MainStart(s)..][..|main|] == main;
    }
    assert s[PayloadStart(s)..] == s[MainStart(s)..][|main|..] == payload;
    PaddingIgnoresLead(|sig|);
  }

  lemma PaddingIgnoresLead(n: nat)
    ensures CalcAlignmentByteCount(96 + n, 8) == CalcAlignmentByteCount(n, 8)
  {
    hide CalcAlignmentByteCount;
    PaddingIsLeast(96 + n, 8, CalcAlignmentByteCount(n, 8));
    PaddingIsLeast(n, 8, CalcAlignmentByteCount(96 + n, 8));
  }

  lemma LeadStartsWithMagic(lead: Lead, s: bytes, rest: bytes)
    requires WellFormedLead(lead) && s == PrintedLead(lead) + rest
    ensures |s| >= 4 && s[..4] == LEAD_MAGIC
  {
  }

  lemma SignaturePart(h: Header, tail: bytes, grow: Growth)
    requires WellFormedHeader(h) && !h.isMain
    requires CalcAlignmentByteCount(96 + |PrintedHeader(h)|, 8) <= |tail|
    ensures var s := PrintedHeader(h) + tail;
            && |s| >= 16
            && HeaderEnd(s) == |PrintedHeader(h)|
            && AcceptsHeader(s, 96, false) && ParsedHeader(s, false, grow) == Reparsed(h, grow)
  {
    hide PrintedHeader, WellFormedHeader, ParsedHeader, AcceptsHeader, HeaderEnd, CalcAlignmentByteCount, Reparsed;
    PrintedParts(h, tail);
    PrintThenParse(h, 96, tail, grow);
  }

  lemma MainPart(h: Header, at: nat, tail: bytes, grow: Growth)
    requires WellFormedHeader(h) && h.isMain
    ensures var s := PrintedHeader(h) + tail;
            && |s| >= 16
            && HeaderEnd(s) == |PrintedHeader(h)|
            && AcceptsHeader(s, at, true) && ParsedHeader(s, true, grow) == Reparsed(h, grow)
  {
    hide PrintedHeader, WellFormedHeader, ParsedHeader, AcceptsHeader, HeaderEnd, Reparsed;
    PrintedParts(h, tail);
    PrintThenParse(h, at, tail, grow);
  }

  // ----- locality

  // A file is parsed from its headers alone: any input that starts with the same bytes, up to
  // the payload, gives the same result.
  lemma FileParsingIsLocal(s: bytes, s': bytes, grow: Growth)
    requires AcceptsHeaders(s)
    requires PayloadStart(s) <= |s'| && s[..PayloadStart(s)] == s'[..PayloadStart(s)]
    ensures AcceptsHeaders(s') && PayloadStart(s') == PayloadStart(s)
    ensures ParsedFile(s', grow) == ParsedFile(s, grow)
  {
    hide AcceptsHeader, ParsedHeader, HeaderEnd, CalcAlignmentByteCount, ParsedLead;
    AcceptedSizes(s);
    var n, m := PayloadStart(s), MainStart(s);
    SamePrefix(s, s', n, 0, 4);
    SamePrefix(s, s', n, 96, m);
    SamePrefix(s, s', n, m, n);
    assert s[96..][..m - 96] == s[96..m] && s'[96..][..m - 96] == s'[96..m];
    ParsingIsLocal(s[96..], s'[96..], 96, false, grow);
    assert MainStart(s') == m;
    assert s[m..][..n - m] == s[m..n] && s'[m..][..n - m] == s'[m..n];
    ParsingIsLocal(s[m..], s'[m..], m, true, grow);
    SameLead(s, s', n);
  }

  lemma SameLead(s: bytes, s': bytes, n: nat)
    requires 96 <= n <= |s| && n <= |s'| && s[..n] == s'[..n]
    ensures ParsedLead(s) == ParsedLead(s')
  {
    hide ShortOf;
    assert forall i :: 0 <= i < n ==> s[..n][i] == s[i] && s'[..n][i] == s'[i];
    assert s[..4] == s'[..4] && s[10..76] == s'[10..76] && s[80..96] == s'[80..96];
    assert s[6..8] == s'[6..8] && s[8..10] == s'[8..10] && s[76..78] == s'[76..78] && s[78..80] == s'[78..80];
  }
}
