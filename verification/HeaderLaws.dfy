// The parser of headers against the format: it accepts the bytes that are a header in the sense of the
// format, and makes of them what they say.
module HeaderLaws {
  import opened Bits
  import opened Utils
  import opened Words
  import opened DynamicArrays
  import opened Headers
  import opened EditorRuns
  import opened Allocator
  import opened Editing
  import opened Formats
  import opened WireFormat

  // ----- numbers

  lemma ShortIsNumber(b: bytes)
    requires |b| == 2
    ensures ShortOf(b) == Number(b)
  {
    assert Number(b[..1]) == 256 * Number(b[..1][..0]) + b[0];
  }

  lemma NumberOfOneMore(a: bytes, d: byte)
    ensures Number(a + [d]) == 256 * Number(a) + d
  {
    assert (a + [d])[..|a|] == a;
  }

  lemma NumberOfSum(a: bytes, b: bytes)
    requires |b| == 2
    ensures Number(a + b) == 0x1_0000 * Number(a) + Number(b)
  {
    NumberOfOneMore(a, b[0]);
    NumberOfOneMore(a + [b[0]], b[1]);
    NumberOfOneMore([], b[0]);
    NumberOfOneMore([b[0]], b[1]);
    assert a + b == a + [b[0]] + [b[1]] && b == [b[0]] + [b[1]] && [] + [b[0]] == [b[0]];
  }

  lemma WordIsNumber(b: bytes)
    requires |b| == 4
    ensures WordOf(b) == Number(b)
  {
    assert b == b[..2] + b[2..];
    ShortIsNumber(b[..2]);
    ShortIsNumber(b[2..]);
    NumberOfSum(b[..2], b[2..]);
  }

  // ----- payloads

  lemma {:induction false} ZeroesAreCounted(p: bytes)
    ensures |Zeroes(p)| == ZeroCount(p)
    decreases |p|
  {
    if p == [] {
      assert Zeroes(p) == {};
    } else {
      var front := p[..|p| - 1];
      ZeroesAreCounted(front);
      assert Zeroes(p) == Zeroes(front) + if p[|p| - 1] == 0 then {|p| - 1} else {};
    }
  }

  lemma OneZero(p: bytes)
    requires p != []
    ensures Zeroes(p) == {|p| - 1} <==> p[|p| - 1] == 0 && forall i :: 0 <= i < |p| - 1 ==> p[i] != 0
  {
    if Zeroes(p) == {|p| - 1} {
      assert |p| - 1 in Zeroes(p);
      forall i | 0 <= i < |p| - 1 ensures p[i] != 0 {
        assert i !in Zeroes(p);
      }
    }
  }

  lemma {:induction false} StringEndsThere(p: bytes)
    requires p != []
    ensures StringSize(p) == Some(|p|) <==> p[|p| - 1] == 0 && forall i :: 0 <= i < |p| - 1 ==> p[i] != 0
    decreases |p|
  {
    if |p| > 1 && p[0] != 0 {
      StringEndsThere(p[1..]);
      assert forall i :: 0 <= i < |p| - 2 ==> p[1..][i] == p[i + 1];
      assert forall i :: 1 <= i < |p| - 1 ==> p[i] == p[1..][i - 1];
    }
  }

  lemma {:induction false} ZeroIsFound(p: bytes)
    requires p != [] && p[|p| - 1] == 0
    ensures StringSize(p).Some?
    decreases |p|
  {
    if p[0] != 0 {
      ZeroIsFound(p[1..]);
    }
  }

  lemma ZerosBehindFirst(p: bytes, m: nat)
    requires StringSize(p) == Some(m)
    ensures ZeroCount(p) == 1 + ZeroCount(p[m..])
  {
    hide ZeroCount, StringSize;
    StringHasOneZero(p, m);
    ZeroCountOfSum(p[..m], p[m..]);
    assert p == p[..m] + p[m..];
  }

  lemma {:induction false} StringsEndThere(p: bytes, count: nat)
    requires p != []
    ensures StringsSize(p, count) == Some(|p|) <==> p[|p| - 1] == 0 && ZeroCount(p) == count
    decreases count
  {
    hide StringSize;
    if StringsSize(p, count) == Some(|p|) {
      StringsEndWithZero(p, count, |p|);
      StringsHaveZeros(p, count, |p|);
      assert p[..|p|] == p;
    } else if p[|p| - 1] == 0 && ZeroCount(p) == count {
      ZeroIsFound(p);
      var m := StringSize(p).value;
      ZerosBehindFirst(p, m);
      if m < |p| {
        StringsEndThere(p[m..], count - 1);
      }
    }
  }

  // An entry has the shape of its format exactly if its payload is what the type and count say.
  lemma ShapeIsPayload(e: Entry)
    requires |e.payload| < U32_LIMIT
    ensures ShapeOk(e) <==> IsPayload(e.format, e.count, e.payload)
  {
    hide StringSize, ZeroCount;
    var p := e.payload;
    if p != [] {
      ZeroesAreCounted(p);
      OneZero(p);
      StringEndsThere(p);
      StringsEndThere(p, e.count);
      assert p[..|p|] == p;
      if StringSize(p) == Some(|p|) {
        StringHasOneZero(p, |p|);
      }
    }
  }

  lemma FourBytes(b: bytes, d: byte)
    requires |b| == 4
    ensures WordOf(b) == d <==> b == [0, 0, 0, d]
  {
    hide WordOf;
    WordIsInjective(b);
    WordRoundTrip(d);
    WordBytesAre(d);
  }

  lemma TrailerIs(p: bytes)
    ensures TrailerWordsOk(p) <==> IsTrailer(p)
    ensures |p| >= 12 ==> RegionCount(p) == RegionEntries(p)
  {
    hide WordOf, Number;
    if |p| >= 16 {
      FourBytes(p[..4], 0x3e);
      FourBytes(p[4..8], 7);
      FourBytes(p[12..16], 16);
      assert p[..8] == p[..4] + p[4..8];
      assert p[..4] == p[..8][..4] && p[4..8] == p[..8][4..];
    }
    if |p| >= 12 {
      WordIsNumber(p[8..12]);
      if WordOf(p[8..12]) > 0 {
        NegatedIs(WordOf(p[8..12]));
      }
    }
  }

  // ----- headers

  lemma SliceOfSlice(s: bytes, a: nat, b: nat, i: nat, j: nat)
    requires a <= b <= |s| && i <= j <= b - a
    ensures s[a..b][i..j] == s[a + i..a + j] && s[a..b][i..][..j - i] == s[a + i..a + j]
  {
    var inner := s[a..b];
    forall k | 0 <= k < j - i
      ensures inner[i..j][k] == s[a + i..a + j][k] && inner[i..][..j - i][k] == s[a + i..a + j][k]
    {
      assert inner[i..][k] == inner[i + k] == s[a + (i + k)];
    }
  }

  lemma EntryIs(s: bytes, n: nat, i: nat)
    requires i < n && 16 + 16 * n <= |s|
    ensures 16 * i + 32 <= |s|
    ensures var e, raw := EntryAt(s, i), IndexOfBytes(s[16..16 + 16 * n], n)[i];
            && raw.tag == e.tag && raw.format == e.format && raw.offset == e.offset && raw.count == e.count
            && raw.payload == []
  {
    hide WordOf, Number;
    var b, at := s[16..16 + 16 * n][16 * i..16 * i + 16], 16 + 16 * i;
    SliceOfSlice(s, 16, 16 + 16 * n, 16 * i, 16 * i + 16);
    SliceOfSlice(s, at, at + 16, 0, 4);
    SliceOfSlice(s, at, at + 16, 4, 8);
    SliceOfSlice(s, at, at + 16, 8, 12);
    SliceOfSlice(s, at, at + 16, 12, 16);
    WordIsNumber(b[..4]);
    WordIsNumber(b[4..8]);
    WordIsNumber(b[8..12]);
    WordIsNumber(b[12..16]);
  }

  lemma SizesAre(s: bytes)
    requires |s| >= 16
    ensures EntryCountOf(s) == EntryCount(s) && StoreSizeOf(s) == StoreSize(s) && HeaderEnd(s) == EndOfHeader(s)
  {
    hide WordOf, Number;
    WordIsNumber(s[8..12]);
    WordIsNumber(s[12..16]);
  }

  lemma NextIs(s: bytes, at: nat, isMain: bool, next: nat)
    requires |s| >= 16
    ensures StartsNext(s, at, isMain, next) <==> next == HeaderLength(s, at, isMain)
  {
    hide CalcAlignmentByteCount, Number;
    SizesAre(s);
    var end := HeaderEnd(s);
    var padding := CalcAlignmentByteCount(at + end, 8);
    if !isMain && StartsNext(s, at, isMain, next) {
      PaddingIsLeast(at + end, 8, next - end);
      SameRemainder(at + end + padding, at + next);
    }
  }

  lemma SameRemainder(a: nat, b: nat)
    requires a % 8 == 0 && b % 8 == 0 && a <= b < a + 8
    ensures a == b
  {
  }

  // What an index entry of the format is for the parser, with a payload
  lemma ReadableIs(s: bytes, isMain: bool, i: nat, p: bytes)
    requires |s| >= 16 && HeaderEnd(s) <= |s| && i < EntryCount(s) && EndOfHeader(s) <= |s|
    ensures i < |IndexIn(s)|
    ensures Readable(StoreOf(s), IndexIn(s)[i], isMain) && PayloadIn(StoreOf(s), IndexIn(s)[i]) == p <==>
            HasPayload(s, isMain, i, p)
  {
    hide Number, WordOf, PayloadSize, PrettyPrints, TrailerWordsOk, IsPayload, IsTrailer;
    SizesAre(s);
    EntryIs(s, EntryCount(s), i);
    var store, raw := StoreOf(s), IndexIn(s)[i];
    TrailerIs(p);
    if |p| < U32_LIMIT {
      ShapeIsPayload(raw.(payload := p));
    }
    if raw.offset + |p| <= |store| {
      SliceOfSlice(s, StoreStart(s), HeaderEnd(s), raw.offset, raw.offset + |p|);
    }
    if HasPayload(s, isMain, i, p) {
      PayloadSizeIsLocal(p, store[raw.offset..], raw.format, raw.count, |p|);
    } else if Readable(store, raw, isMain) && PayloadIn(store, raw) == p {
      var n := PayloadSize(store[raw.offset..], raw.format, raw.count).value;
      PayloadSizeIsLocal(store[raw.offset..], p, raw.format, raw.count, |p|);
    }
  }

  function PayloadsOf(entries: seq<Entry>): (payloads: seq<bytes>)
    ensures |payloads| == |entries|
  {
    seq(|entries|, i requires 0 <= i < |entries| => entries[i].payload)
  }

  // The header says of its entries what the parser reads from the index.
  ghost predicate SaysOfEntries(s: bytes, payloads: seq<bytes>, entries: seq<Entry>)
    requires |s| >= 16 && EndOfHeader(s) <= |s| && |payloads| == EntryCount(s)
  {
    && |entries| == |payloads|
    && forall i :: 0 <= i < |entries| ==>
         && entries[i].tag == EntryAt(s, i).tag && entries[i].format == EntryAt(s, i).format
         && entries[i].offset == EntryAt(s, i).offset && entries[i].count == EntryAt(s, i).count
         && entries[i].payload == payloads[i]
  }

  lemma HeaderSays(s: bytes, at: nat, isMain: bool, payloads: seq<bytes>, next: nat)
    requires IsHeader(s, at, isMain, payloads, next)
    ensures AcceptsHeader(s, at, isMain) && next == HeaderLength(s, at, isMain)
    ensures SaysOfEntries(s, payloads, FilledAll(StoreOf(s), IndexIn(s)))
  {
    hide Number, WordOf, PayloadSize, PrettyPrints, TrailerWordsOk, IsPayload, IsTrailer, HasPayload, Readable;
    hide EntryAt, StoreOf, IndexIn, CalcAlignmentByteCount;
    SizesAre(s);
    NextIs(s, at, isMain, next);
    var store, index := StoreOf(s), IndexIn(s);
    var entries := FilledAll(store, index);
    forall i | 0 <= i < |index|
      ensures Readable(store, index[i], isMain) && entries[i].payload == payloads[i]
      ensures entries[i].tag == EntryAt(s, i).tag && entries[i].format == EntryAt(s, i).format
      ensures entries[i].offset == EntryAt(s, i).offset && entries[i].count == EntryAt(s, i).count
    {
      ReadableIs(s, isMain, i, payloads[i]);
      IndexSays(s, i);
      ReadableIsFilled(store, index[i], isMain);
    }
    forall i, j | 0 <= i < j < |entries| ensures Apart(entries[i], entries[j]) {
    }
  }

  lemma IndexSays(s: bytes, i: nat)
    requires |s| >= 16 && HeaderEnd(s) <= |s| && EndOfHeader(s) <= |s| && i < EntryCount(s)
    ensures i < |IndexIn(s)|
    ensures var e, raw := EntryAt(s, i), IndexIn(s)[i];
            raw.tag == e.tag && raw.format == e.format && raw.offset == e.offset && raw.count == e.count
  {
    SizesAre(s);
    EntryIs(s, EntryCount(s), i);
  }

  lemma ReadableIsFilled(store: bytes, e: Entry, isMain: bool)
    requires Readable(store, e, isMain)
    ensures e.offset <= |store| && PayloadSize(store[e.offset..], e.format, e.count).Some?
    ensures Filled(store, e) == e.(payload := PayloadIn(store, e))
  {
    hide PayloadSize, PrettyPrints, TrailerWordsOk;
  }

  lemma SaidByHeader(s: bytes, at: nat, isMain: bool)
    requires AcceptsHeader(s, at, isMain)
    ensures HeaderEnd(s) <= |s|
    ensures IsHeader(s, at, isMain, PayloadsOf(FilledAll(StoreOf(s), IndexIn(s))), HeaderLength(s, at, isMain))
  {
    hide Number, WordOf, PayloadSize, PrettyPrints, TrailerWordsOk, IsPayload, IsTrailer, HasPayload, Readable;
    hide EntryAt, StoreOf, IndexIn, CalcAlignmentByteCount;
    SizesAre(s);
    NextIs(s, at, isMain, HeaderLength(s, at, isMain));
    var store, index := StoreOf(s), IndexIn(s);
    var entries := FilledAll(store, index);
    var payloads := PayloadsOf(entries);
    forall i | 0 <= i < |index|
      ensures HasPayload(s, isMain, i, payloads[i])
      ensures entries[i].offset == EntryAt(s, i).offset
    {
      assert Readable(store, index[i], isMain);
      ReadableIsFilled(store, index[i], isMain);
      ReadableIs(s, isMain, i, payloads[i]);
      IndexSays(s, i);
    }
    forall i, j | 0 <= i < j < |payloads|
      ensures EntryAt(s, i).offset + |payloads[i]| <= EntryAt(s, j).offset
           || EntryAt(s, j).offset + |payloads[j]| <= EntryAt(s, i).offset
    {
      assert Apart(entries[i], entries[j]);
    }
  }

  // The parser accepts exactly the bytes that are a header.
  lemma AcceptedIffHeader(s: bytes, at: nat, isMain: bool)
    ensures AcceptsHeader(s, at, isMain) <==> exists payloads, next :: IsHeader(s, at, isMain, payloads, next)
  {
    hide AcceptsHeader, IsHeader;
    if AcceptsHeader(s, at, isMain) {
      AcceptedIsLongEnough(s, at, isMain);
      SaidByHeader(s, at, isMain);
    }
    if payloads, next :| IsHeader(s, at, isMain, payloads, next) {
      HeaderSays(s, at, isMain, payloads, next);
    }
  }

  // Of the entries with tag 62, the one whose payload comes last
  predicate IsLastTrailer(s: bytes, i: nat)
    requires |s| >= 16 && EndOfHeader(s) <= |s| && i < EntryCount(s)
  {
    && EntryAt(s, i).tag == 62
    && forall j :: 0 <= j < EntryCount(s) && EntryAt(s, j).tag == 62 ==> EntryAt(s, j).offset <= EntryAt(s, i).offset
  }

  lemma LastTrailerIsSaid(s: bytes, payloads: seq<bytes>, entries: seq<Entry>, i: nat)
    requires |s| >= 16 && EndOfHeader(s) <= |s| && i < |payloads| == EntryCount(s)
    requires SaysOfEntries(s, payloads, entries) && AllApart(entries) && HasPayloads(entries)
    requires IsLastTrailer(s, i) && IsTrailer(payloads[i])
    ensures SignedCount(entries, false) == Some(RegionEntries(payloads[i]))
  {
    hide Number, EntryAt, TrailerWordsOk, WordOf;
    TrailerIs(payloads[i]);
    var t := LastTrailer(entries, |entries|);
    assert entries[i].tag == TAG_HEADER_SIGNATURES;
    if t != i {
      assert false;
    }
  }

  // The region that the parser takes to be signed is that of the last trailer.
  lemma SignedIsSaid(s: bytes, at: nat, payloads: seq<bytes>, next: nat, i: nat, grow: Growth)
    requires IsHeader(s, at, false, payloads, next) && i < |payloads| && IsLastTrailer(s, i)
    ensures AcceptsHeader(s, at, false) && HeaderEnd(s) <= |s| && |payloads[i]| >= 16
    ensures ParsedHeader(s, false, grow).signedCount == Some(RegionEntries(payloads[i]))
  {
    hide Number, EntryAt, StoreOf, IndexIn, CalcAlignmentByteCount, FilledAll, AcceptsStore, PairwiseDisjoint, MaxEnd;
    hide ShapeOk, HoldsPiece, IsPayload, SignedCount, SaysOfEntries, TrailerWordsOk;
    HeaderSays(s, at, false, payloads, next);
    SizesAre(s);
    AcceptedHeader(s, at, false, grow);
    AcceptedPayloads(s, at, false, grow);
    assert HasPayload(s, false, i, payloads[i]);
    LastTrailerIsSaid(s, payloads, FilledAll(StoreOf(s), IndexIn(s)), i);
  }

  // What it makes of them is what they say, and consumes them up to where the next part starts.
  lemma ParsedIsSaid(s: bytes, at: nat, isMain: bool, payloads: seq<bytes>, next: nat, grow: Growth)
    requires IsHeader(s, at, isMain, payloads, next)
    ensures AcceptsHeader(s, at, isMain) && HeaderLength(s, at, isMain) == next && HeaderEnd(s) <= |s|
    ensures var h := ParsedHeader(s, isMain, grow);
            && h.isMain == isMain && h.magic == [0x8e, 0xad, 0xe8] && h.version == s[3] && h.reserved == s[4..8]
            && h.indexEntryCount == EntryCount(s) && h.storeSize == StoreSize(s)
            && SaysOfEntries(s, payloads, h.entries)
  {
    hide Number, WordOf, EntryAt, StoreOf, IndexIn, CalcAlignmentByteCount, FilledAll, AcceptsStore, SignedCount;
    hide AppendedCapacity, HasPayload, SaysOfEntries, EntryCountOf, StoreSizeOf, EntryCount, StoreSize;
    HeaderSays(s, at, isMain, payloads, next);
    SizesAre(s);
  }
}
