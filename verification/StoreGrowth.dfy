// How little the data store changes when an entry is added at the expense of reserved space.
module StoreGrowth {
  import opened Bits
  import opened Utils
  import opened DynamicArrays
  import opened Headers
  import opened WireFormat
  import opened Layouts
  import opened Editing
  import opened HeaderMaps
  import opened EditorRuns
  import opened MapRuns
  import opened Spaces

  // y is x moved up by n bytes, give or take the padding
  predicate MovedUp(x: nat, y: nat, n: nat) {
    && x + 8 * (n / 8) <= y <= x + 8 * (n / 8) + 8
    && (n % 8 == 0 ==> y == x + n)
  }

  lemma PlacingKeepsDistance(x: nat, y: nat, n: nat, alignment: nat)
    requires alignment in {1, 2, 4, 8} && MovedUp(x, y, n)
    ensures MovedUp(x + CalcAlignmentByteCount(x, alignment), y + CalcAlignmentByteCount(y, alignment), n)
  {
    var q, p, p' := n / 8, x + CalcAlignmentByteCount(x, alignment), y + CalcAlignmentByteCount(y, alignment);
    MultiplesOfEight(q, alignment);
    PlaceIsMonotone(x + 8 * q, y, alignment);
    PlaceIsMonotone(y, x + 8 * q + 8, alignment);
    PlaceOfShifted(x, q, alignment);
    PlaceOfShifted(x, q + 1, alignment);
  }

  lemma MultiplesOfEight(q: nat, alignment: nat)
    requires alignment in {1, 2, 4, 8}
    ensures (8 * q) % alignment == 0
  {
    SameRemainder(0, q, alignment);
  }

  lemma PlaceIsMonotone(x: nat, y: nat, alignment: nat)
    requires alignment in {1, 2, 4, 8} && x <= y
    ensures x + CalcAlignmentByteCount(x, alignment) <= y + CalcAlignmentByteCount(y, alignment)
  {
    hide CalcAlignmentByteCount;
    PaddingIsLeast(x, alignment, y + CalcAlignmentByteCount(y, alignment) - x);
  }

  lemma PlaceOfShifted(x: nat, q: nat, alignment: nat)
    requires alignment in {1, 2, 4, 8}
    ensures CalcAlignmentByteCount(x + 8 * q, alignment) == CalcAlignmentByteCount(x, alignment)
  {
    hide CalcAlignmentByteCount;
    var a, b := CalcAlignmentByteCount(x, alignment), CalcAlignmentByteCount(x + 8 * q, alignment);
    SameRemainder(x + a, q, alignment);
    SameRemainder(x + b, q, alignment);
    PaddingIsLeast(x + 8 * q, alignment, a);
    PaddingIsLeast(x, alignment, b);
  }

  lemma SameRemainder(x: nat, q: nat, alignment: nat)
    requires alignment in {1, 2, 4, 8}
    ensures (x + 8 * q) % alignment == x % alignment
  {
    if alignment == 2 {
      RemainderIs(x + 8 * q, 2, x / 2 + 4 * q, x % 2);
    } else if alignment == 4 {
      RemainderIs(x + 8 * q, 4, x / 4 + 2 * q, x % 4);
    } else if alignment == 8 {
      RemainderIs(x + 8 * q, 8, x / 8 + q, x % 8);
    }
  }

  // after has one entry more than before, at index k, and agrees in shape with before up to
  // index last
  ghost predicate OneMore(before: seq<Entry>, after: seq<Entry>, k: nat, last: nat) {
    && |after| == |before| + 1 && k <= last <= |before|
    && (forall i :: 0 <= i < k ==> after[i].format == before[i].format && |after[i].payload| == |before[i].payload|)
    && after[k].Alignment() == 1
    && (forall i :: k <= i < last ==>
          after[i + 1].format == before[i].format && |after[i + 1].payload| == |before[i].payload|)
  }

  function Shifted(trailer: int, k: nat): int {
    if trailer >= k then trailer + 1 else trailer
  }

  lemma {:induction false} SameUntil(before: seq<Entry>, after: seq<Entry>, k: nat, last: nat, trailer: int, m: nat)
    requires OneMore(before, after, k, last) && m <= k
    ensures EndOfFirst(after, Shifted(trailer, k), m) == EndOfFirst(before, trailer, m)
  {
    hide CalcAlignmentByteCount, Place;
    if m > 0 {
      SamePlace(before[m - 1], after[m - 1], EndOfFirst(before, trailer, m - 1));
      SameUntil(before, after, k, last, trailer, m - 1);
    }
  }

  lemma SamePlace(a: Entry, b: Entry, next: u32)
    requires a.format == b.format
    ensures Place(a, next) == Place(b, next)
  {
  }

  lemma {:induction false} MovedUpFrom(before: seq<Entry>, after: seq<Entry>, k: nat, last: nat, trailer: int, m: nat)
    requires OneMore(before, after, k, last) && k <= m <= last
    requires Fits(before) && Fits(after)
    ensures MovedUp(EndOfFirst(before, trailer, m), EndOfFirst(after, Shifted(trailer, k), m + 1), |after[k].payload|)
    decreases m
  {
    hide CalcAlignmentByteCount, EndOfFirst, Fits, MovedUp, LayoutOffset;
    var trailer', n := Shifted(trailer, k), |after[k].payload|;
    if m == k {
      SameUntil(before, after, k, last, trailer, k);
      EndStep(after, trailer', k);
      assert CalcAlignmentByteCount(EndOfFirst(after, trailer', k), 1) == 0;
      MovedUpAtStart(EndOfFirst(before, trailer, k), n);
    } else {
      var i := m - 1;
      MovedUpFrom(before, after, k, last, trailer, i);
      if i == trailer {
        LayoutTurn(before, trailer, i);
        LayoutTurn(after, trailer', i + 1);
      } else {
        EndStep(before, trailer, i);
        EndStep(after, trailer', i + 1);
        PlacingKeepsDistance(EndOfFirst(before, trailer, i), EndOfFirst(after, trailer', m), n, before[i].Alignment());
        AddingKeepsDistance(LayoutOffset(before, trailer, i), LayoutOffset(after, trailer', m), n, |before[i].payload|);
      }
    }
  }

  lemma MovedUpAtStart(x: nat, n: nat)
    ensures MovedUp(x, x + n, n)
  {
  }

  lemma AddingKeepsDistance(x: nat, y: nat, n: nat, len: nat)
    requires MovedUp(x, y, n)
    ensures MovedUp(x + len, y + len, n)
  {
  }

  // Sizes that differ by padding only
  predicate NearlySame(x: nat, y: nat, n: nat) {
    && x <= y + 7 && y <= x + 7
    && (n % 8 == 0 ==> x == y)
  }

  // An entry of n bytes is put in at index k, and the reserved space at the end loses n bytes.
  ghost predicate Traded(before: seq<Entry>, after: seq<Entry>, k: nat, n: nat) {
    && before != [] && |after| == |before| + 1
    && var last := |before| - 1;
       var reserved, reserved' := before[last], after[if k <= last then last + 1 else last];
       && (k <= last || k == |before|)
       && after[k].Alignment() == 1 && |after[k].payload| == n
       && reserved.Alignment() == 1 && reserved'.Alignment() == 1
       && |reserved.payload| == |reserved'.payload| + n
       && (forall i :: 0 <= i < last ==>
             var i' := if i < k then i else i + 1;
             after[i'].format == before[i].format && |after[i'].payload| == |before[i].payload|)
  }

  lemma TradedInFront(before: seq<Entry>, after: seq<Entry>, k: nat, n: nat)
    requires Traded(before, after, k, n) && k < |before|
    ensures var last := |before| - 1;
            && OneMore(before, after, k, last) && |after| == last + 2 && |after[k].payload| == n
            && before[last].Alignment() == 1 && after[last + 1].Alignment() == 1
            && |before[last].payload| == |after[last + 1].payload| + n
  {
  }

  lemma TradedAtTheEnd(before: seq<Entry>, after: seq<Entry>, k: nat, n: nat)
    requires Traded(before, after, k, n) && k >= |before|
    ensures var last := |before| - 1;
            && k == |before| && OneMore(before, after, last, last) && |after| == last + 2
            && before[last].Alignment() == 1 && after[last].Alignment() == 1 && after[last + 1].Alignment() == 1
            && |before[last].payload| == |after[last].payload| + |after[last + 1].payload|
  {
  }

  lemma EndAfterTrade(before: seq<Entry>, after: seq<Entry>, k: nat, n: nat, trailer: int)
    requires Traded(before, after, k, n) && -1 <= trailer < |before| - 1
    requires Fits(before) && Fits(after)
    ensures NearlySame(EndOfFirst(before, trailer, |before|), EndOfFirst(after, Shifted(trailer, k), |after|), n)
  {
    hide CalcAlignmentByteCount, EndOfFirst, Fits, LayoutOffset, NearlySame, MovedUp, Traded, OneMore;
    var last, trailer' := |before| - 1, Shifted(trailer, k);
    if k < |before| {
      TradedInFront(before, after, k, n);
      ByteAlignedStep(before, trailer, last);
      ByteAlignedStep(after, trailer', last + 1);
      MovedUpFrom(before, after, k, last, trailer, last);
      MovedUpAndBack(EndOfFirst(before, trailer, last), EndOfFirst(after, trailer', last + 1),
                     |after[last + 1].payload|, n);
    } else {
      TradedAtTheEnd(before, after, k, n);
      ByteAlignedStep(before, trailer, last);
      ByteAlignedStep(after, trailer, last);
      ByteAlignedStep(after, trailer, last + 1);
      SameUntil(before, after, last, last, trailer, last);
      NearlySameAsItself(EndOfFirst(before, trailer, |before|), n);
    }
  }

  lemma ByteAlignedStep(entries: seq<Entry>, trailer: int, i: nat)
    requires i < |entries| && Fits(entries) && i != trailer && entries[i].Alignment() == 1
    ensures EndOfFirst(entries, trailer, i + 1) == EndOfFirst(entries, trailer, i) + |entries[i].payload|
  {
    hide CalcAlignmentByteCount, EndOfFirst, Fits, LayoutOffset;
    NoPadding(EndOfFirst(entries, trailer, i));
    EndStep(entries, trailer, i);
  }

  lemma MovedUpAndBack(x: nat, y: nat, len: nat, n: nat)
    requires MovedUp(x, y, n)
    ensures NearlySame(x + len + n, y + len, n)
  {
  }

  lemma NearlySameAsItself(x: nat, n: nat)
    ensures NearlySame(x, x, n)
  {
  }

  lemma NoPadding(x: nat)
    ensures CalcAlignmentByteCount(x, 1) == 0
  {
  }

  lemma SizeAfterTrade(before: seq<Entry>, after: seq<Entry>, k: nat, n: nat, trailer: int)
    requires Traded(before, after, k, n) && -1 <= trailer < |before| - 1
    requires trailer >= 0 ==> before[trailer].Alignment() == 1
    requires Fits(before) && Fits(after)
    ensures NearlySame(LayoutSize(before, trailer), LayoutSize(after, Shifted(trailer, k)), n)
  {
    hide CalcAlignmentByteCount, EndOfFirst, Fits, LayoutOffset;
    EndAfterTrade(before, after, k, n, trailer);
    if trailer >= 0 {
      TrailerStep(before, trailer);
      TrailerStep(after, Shifted(trailer, k));
      NoPadding(EndOfFirst(before, trailer, |before|));
      NoPadding(EndOfFirst(after, Shifted(trailer, k), |after|));
    }
  }

  // A packed header whose reserved space is its last entry, and larger than the new payload
  ghost predicate CanTrade(h: Header, tag: u32, format: u32, payload: bytes) {
    var t := TrailerIndex(h);
    && Framed(h) && Packed(h) && Fits(h.entries) && GoodReservation(h)
    && IndexOf(h.entries, TAG_RESERVED_SPACE) == |h.entries| - 1
    && (t >= 0 ==> h.entries[t].Alignment() == 1)
    && !OwnedByEditor(tag) && IndexOf(h.entries, tag) < 0 && ByteAligned(format)
    && |payload| < Reservation(h).count
    && |h.entries| + 2 < 0x1000_0000
  }

  // Adding a byte-aligned entry at the expense of the reserved space changes the size of the
  // store by at most 7 bytes, and not at all when the payload is a multiple of 8 bytes long.
  lemma AddingCostsPaddingOnly(h: Header, tag: u32, format: u32, count: u32, payload: bytes, grow: Growth)
    requires CanTrade(h, tag, format, payload) && CanSet(h, tag, format, payload)
    ensures NearlySame(h.storeSize, SetOrAdd(h, tag, format, count, payload, grow).storeSize, |payload|)
  {
    hide Allocate, UpdateTrailer, EndOfFirst, LayoutSize, LayoutOffset, Fits, CalcAlignmentByteCount, AllocateOnce;
    hide NearlySame, HasData, Roomy, Traded;
    FitsInAWord(h, tag, format, payload);
    SetOrAddSpace(h, tag, format, count, payload, grow);
    SpaceFits(SetOrAdd(h, tag, format, count, payload, grow));
    AllocationKeepsTrailerSize(h, |payload|, format, grow);
    var allocation := Allocate(h, |payload|, format, grow);
    var e := Entry(tag, format, allocation.address, count, payload);
    InsertionKeepsTrailerSize(allocation.h, e, grow);
    var with := UpdateTrailer(WithEntry(allocation.h, e, grow));
    var after := SetOrAdd(h, tag, format, count, payload, grow);
    assert after == SyncLayout(with);
    var k := InsertionPoint(h.entries, tag);
    TradeHappens(h, tag, format, count, payload, grow);
    SyncKeepsTrailer(with);
    SameShapeSameLayout(with.entries, after.entries, TrailerIndex(with));
    SizeAfterTrade(h.entries, after.entries, k, |payload|, TrailerIndex(h));
  }

  // What the allocation does to the reserved space, and nothing else
  lemma AllocationTakes(h: Header, n: u32, format: u32, grow: Growth)
    requires TrailerHasItsSize(h) && GoodReservation(h) && n < Reservation(h).count && n + 8206 < U32_LIMIT
    requires ByteAligned(format)
    ensures var r, after := IndexOf(h.entries, TAG_RESERVED_SPACE), Allocate(h, n, format, grow).h;
            && |after.entries| == |h.entries| && after.isMain == h.isMain
            && (forall j :: 0 <= j < |h.entries| && j != r ==> after.entries[j] == h.entries[j])
            && after.entries[r].tag == TAG_RESERVED_SPACE && after.entries[r].format == FORMAT_BINARY
            && |after.entries[r].payload| + n == |h.entries[r].payload|
  {
    hide CalcAlignmentByteCount, AllocateOnce;
    NoPadding(Reservation(h).offset);
    OneAllocationLaw(h, n, format);
    OneAllocationKeeps(h, n, format);
    StillReserved(h, n, format);
  }

  // The entries before the allocation, after it, and after the insertion of e at index k
  lemma TradedEntries(before: seq<Entry>, middle: seq<Entry>, after: seq<Entry>, k: nat, e: Entry)
    requires before != [] && |middle| == |before| && |after| == |before| + 1 && k <= |before|
    requires var r := |before| - 1;
             && (forall j :: 0 <= j < r ==> middle[j] == before[j])
             && before[r].Alignment() == 1 && middle[r].Alignment() == 1
             && |middle[r].payload| + |e.payload| == |before[r].payload|
    requires Kept(after[k], e) && e.Alignment() == 1
    requires forall j :: 0 <= j < k ==> Kept(after[j], middle[j])
    requires forall j :: k < j < |after| ==> Kept(after[j], middle[j - 1])
    ensures Traded(before, after, k, |e.payload|)
  {
  }

  lemma AddingInserts(h: Header, tag: u32, format: u32, count: u32, payload: bytes, grow: Growth)
    requires tag != TAG_HEADER_SIGNATURES && TrailerHasItsSize(h) && IndexOf(h.entries, tag) < 0
    requires |payload| < U32_LIMIT
    ensures var allocation := Allocate(h, |payload|, format, grow);
            && TrailerHasItsSize(allocation.h)
            && SetOrAdd(h, tag, format, count, payload, grow) ==
               Insert(allocation.h, Entry(tag, format, allocation.address, count, payload), grow)
  {
    hide Insert, Allocate;
    AllocationKeepsTrailerSize(h, |payload|, format, grow);
  }

  lemma TradeHappens(h: Header, tag: u32, format: u32, count: u32, payload: bytes, grow: Growth)
    requires CanTrade(h, tag, format, payload) && CanSet(h, tag, format, payload)
    ensures var after := SetOrAdd(h, tag, format, count, payload, grow);
            && Traded(h.entries, after.entries, InsertionPoint(h.entries, tag), |payload|)
            && TrailerIndex(after) == Shifted(TrailerIndex(h), InsertionPoint(h.entries, tag))
            && TrailerIndex(h) < |h.entries| - 1
  {
    hide Insert, Allocate, Traded, SetOrAdd, CanTrade, CanSet, InsertionPoint, GoodReservation, HasReservation;
    hide IndexOf, Kept;
    CanTradeMeans(h, tag, format, payload);
    var n, r, k := |payload|, IndexOf(h.entries, TAG_RESERVED_SPACE), InsertionPoint(h.entries, tag);
    AllocationKeepsTrailerSize(h, n, format, grow);
    AllocationTakes(h, n, format, grow);
    var allocation := Allocate(h, n, format, grow);
    var e := Entry(tag, format, allocation.address, count, payload);
    var after := SetOrAdd(h, tag, format, count, payload, grow);
    AddingInserts(h, tag, format, count, payload, grow);
    assert forall j :: 0 <= j < |h.entries| ==> allocation.h.entries[j].tag == h.entries[j].tag;
    InsertionPointIs(allocation.h.entries, tag, k);
    InsertKeeps(allocation.h, e, grow);
    TradedEntries(h.entries, allocation.h.entries, after.entries, k, e);
    forall j | 0 <= j < |after.entries|
      ensures after.entries[j].tag ==
              if j == k then tag else allocation.h.entries[if j < k then j else j - 1].tag
    {
      KeptTag(after.entries[j], if j == k then e else allocation.h.entries[if j < k then j else j - 1]);
    }
    InsertMovesTrailer(h, allocation.h, after, k);
  }

  lemma CanTradeMeans(h: Header, tag: u32, format: u32, payload: bytes)
    requires CanTrade(h, tag, format, payload) && CanSet(h, tag, format, payload)
    ensures TrailerHasItsSize(h) && tag != TAG_HEADER_SIGNATURES && !h.isMain
    ensures IndexOf(h.entries, tag) < 0 && ByteAligned(format)
    ensures GoodReservation(h) && |payload| < Reservation(h).count && |payload| + 8206 < U32_LIMIT
    ensures IndexOf(h.entries, TAG_RESERVED_SPACE) == |h.entries| - 1 && h.entries != []
    ensures Reservation(h) == h.entries[|h.entries| - 1] && h.entries[|h.entries| - 1].Alignment() == 1
    ensures TrailerIndex(h) < |h.entries| - 1
  {
    hide HasData, Fits, Packed, RegionOk, TrailerOk, MaxEnd, Span;
  }

  lemma InsertMovesTrailer(h: Header, middle: Header, after: Header, k: nat)
    requires !h.isMain && !after.isMain && |middle.entries| == |h.entries| && |after.entries| == |h.entries| + 1
    requires k <= |h.entries| && after.entries[k].tag != TAG_HEADER_SIGNATURES
    requires forall j :: 0 <= j < |h.entries| ==> middle.entries[j].tag == h.entries[j].tag
    requires forall j :: 0 <= j < k ==> after.entries[j].tag == middle.entries[j].tag
    requires forall j :: k < j < |after.entries| ==> after.entries[j].tag == middle.entries[j - 1].tag
    ensures TrailerIndex(after) == Shifted(TrailerIndex(h), k)
  {
    IndexOfIs(after.entries, TAG_HEADER_SIGNATURES, Shifted(TrailerIndex(h), k));
  }
}
