// Whether a signature header that was signed reads back: which of its entries the parser accepts,
// and whether its region covers them, told from the header before signing.
module SignedShapes {
  import opened Bits
  import opened Utils
  import opened Headers
  import opened Layouts
  import opened Editing
  import opened HeaderMaps
  import opened Multimaps
  import opened EditorRuns
  import opened MapRuns
  import opened Formats
  import opened Signing

  // The parser accepts the entry: its payload has the shape of its format, and the words of a
  // trailer are valid.
  predicate EntryOk(e: Entry) {
    ShapeOk(e) && (e.tag == TAG_HEADER_SIGNATURES ==> TrailerWordsOk(e.payload))
  }

  predicate AllOk(entries: seq<Entry>) {
    forall j :: 0 <= j < |entries| ==> EntryOk(entries[j])
  }

  predicate AllOkBut(entries: seq<Entry>, r: nat) {
    forall j :: 0 <= j < |entries| && j != r ==> EntryOk(entries[j])
  }

  lemma AllIsAllBut(entries: seq<Entry>, r: nat)
    requires r < |entries|
    ensures AllOk(entries) <==> AllOkBut(entries, r) && EntryOk(entries[r])
  {
    hide EntryOk;
  }

  lemma OkIgnoresOffset(e: Entry, offset: u32)
    ensures EntryOk(e.(offset := offset)) <==> EntryOk(e)
  {
  }

  lemma BinaryIsOk(e: Entry)
    requires e.format == FORMAT_BINARY && e.count == |e.payload| > 0 && e.tag != TAG_HEADER_SIGNATURES
    ensures EntryOk(e)
  {
  }

  lemma OkIsKnown(entries: seq<Entry>)
    requires AllOk(entries)
    ensures KnownFormats(entries) && HasPayloads(entries)
  {
    forall j | 0 <= j < |entries| ensures KnownFormat(entries[j].format) && entries[j].payload != [] {
      assert EntryOk(entries[j]);
    }
  }

  // ----- trailers

  lemma TrailerEndsWithSize(payload: bytes)
    requires |payload| == 16 && TrailerWordsOk(payload)
    ensures payload[15] == 16
  {
    var b := payload[12..16];
    assert b[2..] == [b[2], b[3]] && b[3] == payload[15];
  }

  // A trailer never is a string, so its shape depends on its length only.
  lemma TrailerKeepsShape(e: Entry, e': Entry)
    requires ShapeOk(e) && |e.payload| == |e'.payload| == 16 && e'.format == e.format && e'.count == e.count
    requires TrailerWordsOk(e.payload)
    ensures ShapeOk(e')
  {
    hide TrailerWordsOk, ZeroCount;
    TrailerEndsWithSize(e.payload);
    if e.format == FORMAT_STRING {
      StringEndsWithZero(e.payload, 16);
    } else if e.format == FORMAT_STRING_ARRAY || e.format == FORMAT_I18N_STRING_ARRAY {
      StringsEndWithZero(e.payload, e.count, 16);
    }
  }

  // ----- what each step of the editor does to the entries

  lemma SyncKeepsOk(h: Header)
    ensures AllOk(SyncLayout(h).entries) <==> AllOk(h.entries)
  {
    hide EntryOk, LayoutOffset, LayoutSize;
    forall j | 0 <= j < |h.entries| ensures EntryOk(SyncLayout(h).entries[j]) <==> EntryOk(h.entries[j]) {
      OkIgnoresOffset(h.entries[j], SyncLayout(h).entries[j].offset);
    }
    assert AllOk(h.entries) ==> AllOk(SyncLayout(h).entries);
    if AllOk(SyncLayout(h).entries) {
      forall j | 0 <= j < |h.entries| ensures EntryOk(h.entries[j]) {
        assert EntryOk(SyncLayout(h).entries[j]);
      }
    }
  }

  lemma UpdatedTrailerIsOk(e: Entry, n: nat)
    requires EntryOk(e) && e.tag == TAG_HEADER_SIGNATURES && |e.payload| == 16 && n < 0x1000_0000
    ensures EntryOk(e.(payload := WithRegion(e.payload, n)))
  {
    hide WithRegion, TrailerWordsOk, ShapeOk;
    RegionOfUpdate(e.payload, n);
    TrailerKeepsShape(e, e.(payload := WithRegion(e.payload, n)));
  }

  predicate FirstTrailerOk(h: Header) {
    var t := IndexOf(h.entries, TAG_HEADER_SIGNATURES);
    t >= 0 ==> EntryOk(h.entries[t])
  }

  lemma UpdateKeepsOk(h: Header)
    requires FirstTrailerOk(h) && TrailerHasItsSize(h) && |h.entries| < 0x1000_0000
    ensures AllOk(UpdateTrailer(h).entries) <==> AllOk(h.entries)
  {
    hide EntryOk, WithRegion;
    var t, after := IndexOf(h.entries, TAG_HEADER_SIGNATURES), UpdateTrailer(h).entries;
    if t >= 0 && !h.isMain {
      UpdatedTrailerIsOk(h.entries[t], |h.entries|);
      AllIsAllBut(h.entries, t);
      AllIsAllBut(after, t);
      assert forall j :: 0 <= j < |after| && j != t ==> after[j] == h.entries[j];
    }
  }

  lemma SettlingKeepsOk(h: Header)
    requires FirstTrailerOk(h) && TrailerHasItsSize(h) && |h.entries| < 0x1000_0000
    ensures AllOk(SyncLayout(UpdateTrailer(h)).entries) <==> AllOk(h.entries)
  {
    hide AllOk, SyncLayout, UpdateTrailer;
    UpdateKeepsOk(h);
    SyncKeepsOk(UpdateTrailer(h));
  }

  lemma DeleteKeepsOk(h: Header, tag: u32)
    requires AllOk(h.entries) && TrailerHasItsSize(h) && |h.entries| < 0x1000_0000 && tag != TAG_HEADER_SIGNATURES
    ensures AllOk(Delete(h, tag).entries)
  {
    hide EntryOk, SyncLayout, UpdateTrailer;
    var k := IndexOf(h.entries, tag);
    if k >= 0 {
      RemovalKeepsTrailerSize(h, k);
      SettlingKeepsOk(RemoveAtIndex(h, k));
    }
  }

  lemma InsertKeepsOk(h: Header, e: Entry, grow: Growth)
    requires FirstTrailerOk(h) && TrailerHasItsSize(h) && |h.entries| + 1 < 0x1000_0000
    requires EntryOk(e) && e.tag != TAG_HEADER_SIGNATURES
    ensures AllOk(Insert(h, e, grow).entries) <==> AllOk(h.entries)
  {
    hide EntryOk, SyncLayout, UpdateTrailer, InsertionPoint;
    var k, with := InsertionPoint(h.entries, e.tag), WithEntry(h, e, grow);
    var t := IndexOf(h.entries, TAG_HEADER_SIGNATURES);
    IndexOfIs(with.entries, TAG_HEADER_SIGNATURES, if t >= k then t + 1 else t);
    InsertionKeepsTrailerSize(h, e, grow);
    SettlingKeepsOk(with);
    InsertedIsOk(h.entries, k, e);
  }

  lemma InsertedIsOk(entries: seq<Entry>, k: nat, e: Entry)
    requires k <= |entries| && EntryOk(e)
    ensures AllOk(InsertAt(entries, k, e)) <==> AllOk(entries)
  {
    hide EntryOk;
    var after := InsertAt(entries, k, e);
    if AllOk(after) {
      forall j | 0 <= j < |entries| ensures EntryOk(entries[j]) {
        assert EntryOk(after[if j < k then j else j + 1]);
      }
    }
  }

  lemma OneAllocationKeepsOk(h: Header, n: u32, format: u32)
    requires HasReservation(h) && AllOkBut(h.entries, IndexOf(h.entries, TAG_RESERVED_SPACE))
    ensures AllOkBut(AllocateOnce(h, n, format).h.entries, IndexOf(h.entries, TAG_RESERVED_SPACE))
  {
    hide EntryOk, AllocateOnce;
    OneAllocationKeeps(h, n, format);
  }

  // All entries are accepted after an allocation, apart from reserved space that was there before.
  lemma AllocationKeepsOk(h: Header, n: u32, format: u32, grow: Growth)
    requires AllOk(h.entries) && TrailerHasItsSize(h) && |h.entries| + 1 < 0x1000_0000 && n + 8206 < U32_LIMIT
    ensures var after, r := Allocate(h, n, format, grow).h.entries, ReservedAt(h.entries);
            && r < |after| && AllOkBut(after, r) && after[r].tag == TAG_RESERVED_SPACE
            && (!HasReservation(h) ==> EntryOk(after[r]) && AllOk(after))
  {
    hide EntryOk, AllocateOnce, Insert, NewReservation, AllKept;
    var reserved, r := WithReservedSpace(h, n, format, grow), ReservedAt(h.entries);
    AllocationIsReserving(h, n, format, grow);
    if !HasReservation(h) {
      var e := NewReservation(h, n, format);
      BinaryIsOk(e);
      InsertKeepsOk(h, e, grow);
      InsertedIsFound(h, e, grow);
      FirstAllocationLaw(h, n, format, grow);
      BinaryIsOk(Reservation(Allocate(h, n, format, grow).h));
    }
    OneAllocationKeepsOk(reserved, n, format);
    StillReserved(reserved, n, format);
    OneAllocationKeepsOk(AllocateOnce(reserved, n, format).h, n, format);
    AllIsAllBut(Allocate(h, n, format, grow).h.entries, r);
  }

  // ----- storing a signature

  // The entry written to, if the packet hits the one in front of the signature
  function Overwritten(entries: seq<Entry>, tag: u32, payload: bytes): Entry
    requires IndexOf(entries, tag) > 0 && |payload| < U32_LIMIT
  {
    entries[IndexOf(entries, tag) - 1].(count := |payload|, payload := payload)
  }

  lemma WrittenIsOk(h: Header, i: nat, count: u32, payload: bytes, r: nat)
    requires i < |h.entries| && r < |h.entries| && (i == r || AllOkBut(h.entries, r))
    requires i == r ==> AllOk(h.entries)
    ensures AllOk(SyncLayout(WithContents(h, i, count, payload)).entries) <==>
              EntryOk(h.entries[i].(count := count, payload := payload)) && (i != r ==> EntryOk(h.entries[r]))
  {
    hide EntryOk, SyncLayout;
    var after := WithContents(h, i, count, payload).entries;
    SyncKeepsOk(WithContents(h, i, count, payload));
    AllIsAllBut(h.entries, r);
    AllIsAllBut(after, i);
    if i != r && EntryOk(h.entries[r]) {
      assert AllOk(h.entries);
    }
    if i != r && AllOk(after) {
      assert EntryOk(after[r]);
    }
  }

  // What becomes of the reserved space has the shape of its format, if it is used.
  predicate ReservationReads(h: Header, tag: u32, payload: bytes, grow: Growth)
    requires TrailerHasItsSize(h)
  {
    var reached := Allocate(h, U32(|payload|), FORMAT_BINARY, grow).h;
    HasReservation(h) && (IndexOf(h.entries, tag) < 0 || NeedsAllocation(h, tag, payload)) ==>
      HasReservation(reached) && ShapeOk(Reservation(reached))
  }

  // Setting a signature leaves entries that are all accepted, exactly if reserved space that is
  // used keeps its shape, and an entry that is hit has one afterwards.
  lemma StoringIsOk(h: Header, tag: u32, payload: bytes, grow: Growth)
    requires CanSet(h, tag, FORMAT_BINARY, payload) && AllOk(h.entries) && payload != []
    requires !OwnedByEditor(tag) && tag < TAG_RESERVED_SPACE && |payload| < U32_LIMIT
    ensures TrailerHasItsSize(h)
    ensures GoesAstray(h, tag, payload) ==> IndexOf(h.entries, tag) > 0
    ensures AllOk(SetOrAdd(h, tag, FORMAT_BINARY, |payload|, payload, grow).entries) <==>
              && ReservationReads(h, tag, payload, grow)
              && (GoesAstray(h, tag, payload) ==> EntryOk(Overwritten(h.entries, tag, payload)))
  {
    hide EntryOk, SetOrAdd, Allocate, NeedsAllocation, HasData, AllOk, ReservationReads, GoesAstray;
    assert Roomy(h, |payload|);
    if IndexOf(h.entries, tag) < 0 {
      AddingIsOk(h, tag, payload, grow);
      AbsentIsFine(h, tag, payload);
    } else {
      ReplacingIsOk(h, tag, payload, grow);
    }
  }

  lemma AbsentIsFine(h: Header, tag: u32, payload: bytes)
    requires IndexOf(h.entries, tag) < 0
    ensures !GoesAstray(h, tag, payload)
  {
  }

  lemma AddingIsOk(h: Header, tag: u32, payload: bytes, grow: Growth)
    requires AllOk(h.entries) && TrailerHasItsSize(h) && |h.entries| + 2 < 0x1000_0000
    requires payload != [] && |payload| + 8206 < U32_LIMIT
    requires !OwnedByEditor(tag) && IndexOf(h.entries, tag) < 0
    ensures AllOk(SetOrAdd(h, tag, FORMAT_BINARY, |payload|, payload, grow).entries) <==>
              ReservationReads(h, tag, payload, grow)
  {
    hide EntryOk, Allocate, Insert, NeedsAllocation, AllOkBut, AllKept;
    var n, r := |payload|, ReservedAt(h.entries);
    AllocationKeepsOk(h, n, FORMAT_BINARY, grow);
    AllocationKeepsTrailerSize(h, n, FORMAT_BINARY, grow);
    AllocationIsReserving(h, n, FORMAT_BINARY, grow);
    var allocation := Allocate(h, n, FORMAT_BINARY, grow);
    var e := Entry(tag, FORMAT_BINARY, allocation.address, n, payload);
    ReservationShape(allocation.h, r);
    BinaryIsOk(e);
    AllButIsTrailerOk(allocation.h, r);
    KeptLength(allocation.h.entries, Reserving(h.entries, allocation.h.entries[r]));
    InsertKeepsOk(allocation.h, e, grow);
    AllIsAllBut(allocation.h.entries, r);
  }

  lemma AllButIsTrailerOk(h: Header, r: nat)
    requires r < |h.entries| && AllOkBut(h.entries, r) && h.entries[r].tag != TAG_HEADER_SIGNATURES
    ensures FirstTrailerOk(h)
  {
    hide EntryOk;
  }

  lemma OkByKind(a: Entry, b: Entry, count: u32, payload: bytes)
    requires a.tag == b.tag && a.format == b.format
    ensures EntryOk(a.(count := count, payload := payload)) <==> EntryOk(b.(count := count, payload := payload))
  {
  }

  lemma ReplacingIsOk(h: Header, tag: u32, payload: bytes, grow: Growth)
    requires AllOk(h.entries) && TrailerHasItsSize(h) && |h.entries| + 2 < 0x1000_0000
    requires payload != [] && |payload| + 8206 < U32_LIMIT
    requires !OwnedByEditor(tag) && tag < TAG_RESERVED_SPACE && IndexOf(h.entries, tag) >= 0
    requires h.entries[IndexOf(h.entries, tag)].format == FORMAT_BINARY
    ensures GoesAstray(h, tag, payload) ==> IndexOf(h.entries, tag) > 0
    ensures AllOk(SetOrAdd(h, tag, FORMAT_BINARY, |payload|, payload, grow).entries) <==>
              && ReservationReads(h, tag, payload, grow)
              && (GoesAstray(h, tag, payload) ==> EntryOk(Overwritten(h.entries, tag, payload)))
  {
    hide EntryOk, Allocate, SyncLayout, NeedsAllocation, AllOkBut, AllKept, InsertionPoint;
    var n, i, r := |payload|, IndexOf(h.entries, tag), ReservedAt(h.entries);
    var reached := Allocated(h, tag, FORMAT_BINARY, payload, grow);
    ReachedEntry(h, tag, FORMAT_BINARY, payload, grow);
    if !NeedsAllocation(h, tag, payload) {
      WrittenIsOk(h, i, n, payload, i);
      BinaryIsOk(h.entries[i].(count := n, payload := payload));
    } else {
      AllocationKeepsOk(h, n, FORMAT_BINARY, grow);
      AllocationIsReserving(h, n, FORMAT_BINARY, grow);
      ReservationShape(reached, r);
      AllIsAllBut(reached.entries, r);
      if SliceMoves(h) {
        SyncKeepsOk(reached);
      } else {
        WrittenIsOk(reached, i, n, payload, r);
        if GoesAstray(h, tag, payload) {
          OkByKind(reached.entries[i], h.entries[i - 1], n, payload);
        } else {
          BinaryIsOk(reached.entries[i].(count := n, payload := payload));
        }
      }
    }
  }

  lemma ReservationShape(h: Header, r: nat)
    requires r < |h.entries| && IndexOf(h.entries, TAG_RESERVED_SPACE) == r
    ensures HasReservation(h) && (ShapeOk(Reservation(h)) <==> EntryOk(h.entries[r]))
  {
  }

  // ----- the entries of a signed header

  lemma {:induction false} DeletionsKeepOk(h: Header, ops: seq<Op>, grow: Growth)
    requires AllOk(h.entries) && |h.entries| < 0x1000_0000 && DeletionsOnly(ops) && CanRun(h, ops, grow)
    ensures AllOk(Run(h, ops, grow).entries)
    decreases |ops|
  {
    hide AllOk, Delete;
    if ops != [] {
      DeleteKeepsOk(h, ops[0].tag);
      DeleteIsWithout(h, ops[0].tag);
      DeletionsKeepOk(Apply(h, ops[0], grow), ops[1..], grow);
    }
  }

  lemma {:induction false} DeletionsKeepReservation(h: Header, ops: seq<Op>, grow: Growth)
    requires DeletionsOnly(ops) && CanRun(h, ops, grow)
    ensures HasReservation(Run(h, ops, grow)) <==> HasReservation(h)
    ensures HasReservation(h) ==> ItemAt(Reservation(Run(h, ops, grow))) == ItemAt(Reservation(h))
    decreases |ops|
  {
    hide Delete;
    if ops != [] {
      DeleteItems(h, ops[0].tag, TAG_RESERVED_SPACE);
      DeletionsKeepReservation(Apply(h, ops[0], grow), ops[1..], grow);
    }
  }

  // The reserved space after a packet of n bytes was taken off it
  function ReservationAfter(h: Header, n: u32): Entry
    requires HasReservation(h)
  {
    var r := Reservation(h).count;
    var left: u32 := if r > n then r - n else RESERVED_SPACE_ALLOCATION_SIZE;
    Reservation(h).(count := left, payload := Zeros(left))
  }

  // Reserved space that is used for the packet still has the shape of its format.
  predicate ReservationSurvives(h: Header, keyType: KeyType, packet: bytes)
    requires !keyType.OtherKey? && |packet| < U32_LIMIT
  {
    HasReservation(h) && (IndexOf(h.entries, SignatureTag(keyType)) < 0 || Outgrows(h, keyType, packet)) ==>
      ShapeOk(ReservationAfter(h, |packet|))
  }

  // An entry that the packet is written to by mistake can hold it.
  predicate NeighbourSurvives(h: Header, keyType: KeyType, packet: bytes)
    requires !keyType.OtherKey? && |packet| < U32_LIMIT
  {
    HitsNeighbour(h, keyType, packet) ==>
      EntryOk(Neighbour(h, keyType).(count := |packet|, payload := packet))
  }

  lemma AllocatedReservation(h: Header, n: u32, grow: Growth)
    requires TrailerHasItsSize(h) && HasReservation(h) && n + 8206 < U32_LIMIT
    ensures var after := Allocate(h, n, FORMAT_BINARY, grow).h;
            HasReservation(after) && ItemAt(Reservation(after)) == ItemAt(ReservationAfter(h, n))
  {
    hide AllocateOnce, IsAtEnd, CalcAlignmentByteCount;
    AllocationLaw(h, n, FORMAT_BINARY, grow);
    ReservedZeros(h, n, FORMAT_BINARY);
    StillReserved(h, n, FORMAT_BINARY);
    ReservedZeros(AllocateOnce(h, n, FORMAT_BINARY).h, n, FORMAT_BINARY);
    assert PaddingAt(Reservation(h).offset, FORMAT_BINARY) == 0;
  }

  lemma ReservedZeros(h: Header, n: u32, format: u32)
    requires HasReservation(h) && n + 8206 < U32_LIMIT
    ensures var after := AllocateOnce(h, n, format).h;
            HasReservation(after) && Reservation(after).payload == Zeros(Reservation(after).count)
  {
    hide CalcAlignmentByteCount, IsAtEnd, FindNextSuitablePayloadOffset;
    StillReserved(h, n, format);
  }

  lemma ShapeOfItem(a: Entry, b: Entry)
    requires ItemAt(a) == ItemAt(b) && a.tag == b.tag != TAG_HEADER_SIGNATURES
    ensures ShapeOk(a) <==> ShapeOk(b)
  {
  }

  lemma ReservationByStaying(h: Header, keyType: KeyType, packet: bytes, grow: Growth)
    requires Framed(h) && |h.entries| < 0x1000_0000 && CanSign(h, keyType, packet, grow)
    ensures CanRun(h, DeletionsFor(keyType), grow)
    ensures |packet| < U32_LIMIT && TrailerHasItsSize(Stripped(h, keyType, grow))
    ensures ReservationReads(Stripped(h, keyType, grow), SignatureTag(keyType), packet, grow) <==>
            ReservationSurvives(h, keyType, packet)
  {
    hide Framed, CanRun, Run, Allocate, NeedsAllocation, Outgrows, ShapeOk, ItemsWith, HasData, ReservationAfter;
    hide HasReservation, Reservation, CanAllocate, Apply;
    SigningInTwoSteps(h, keyType, packet, grow);
    OutgrowsIffNeeded(h, keyType, packet, grow);
    var stripped, tag := Stripped(h, keyType, grow), SignatureTag(keyType);
    CanSetHasTrailerSize(stripped, tag, FORMAT_BINARY, packet);
    DeletionsKeepReservation(h, DeletionsFor(keyType), grow);
    StrippedItems(h, keyType, grow, tag);
    FirstItem(h.entries, tag);
    FirstItem(stripped.entries, tag);
    if HasReservation(h) {
      RoomIsThere(stripped, tag, packet);
      ReservationShapes(h, stripped, |packet|, grow);
    }
  }

  lemma ReservationShapes(h: Header, stripped: Header, n: u32, grow: Growth)
    requires TrailerHasItsSize(stripped) && HasReservation(h) && HasReservation(stripped) && n + 8206 < U32_LIMIT
    requires ItemAt(Reservation(stripped)) == ItemAt(Reservation(h))
    ensures var after := Allocate(stripped, n, FORMAT_BINARY, grow).h;
            HasReservation(after) && (ShapeOk(Reservation(after)) <==> ShapeOk(ReservationAfter(h, n)))
  {
    hide Allocate, ShapeOk, ReservationAfter, ItemAt;
    AllocatedReservation(stripped, n, grow);
    SameReservationAfter(h, stripped, n);
    ShapeOfItem(Reservation(Allocate(stripped, n, FORMAT_BINARY, grow).h), ReservationAfter(h, n));
  }

  lemma RoomIsThere(h: Header, tag: u32, payload: bytes)
    requires CanSet(h, tag, FORMAT_BINARY, payload)
    ensures |payload| + 8206 < U32_LIMIT && |h.entries| + 2 < 0x1000_0000
  {
    hide HasData;
  }

  lemma SameReservationAfter(h: Header, h': Header, n: u32)
    requires HasReservation(h) && HasReservation(h') && ItemAt(Reservation(h')) == ItemAt(Reservation(h))
    ensures ItemAt(ReservationAfter(h', n)) == ItemAt(ReservationAfter(h, n))
    ensures ReservationAfter(h, n).tag == TAG_RESERVED_SPACE
  {
  }

  // After signing, all entries are accepted exactly if the reserved space and the neighbour of the
  // signature survive it.
  lemma SignedIsOk(h: Header, keyType: KeyType, packet: bytes, grow: Growth)
    requires Framed(h) && AllOk(h.entries) && |h.entries| < 0x1000_0000 && CanSign(h, keyType, packet, grow)
    ensures !keyType.OtherKey? && |packet| < U32_LIMIT
    ensures AllOk(SignedHeader(h, keyType, packet, grow).entries) <==>
              ReservationSurvives(h, keyType, packet) && NeighbourSurvives(h, keyType, packet)
  {
    hide Framed, CanRun, Run, EntryOk, AllOk, SetOrAdd, CanSet, GoesAstray, HitsNeighbour, ReservationReads;
    hide ReservationSurvives, StruckTag, Staying, AllKept, Packed, Fits;
    SigningInTwoSteps(h, keyType, packet, grow);
    var stripped, tag, rest := Stripped(h, keyType, grow), SignatureTag(keyType), Staying(h.entries, keyType);
    StrippedHeader(h, keyType, packet, grow);
    DeletionsKeepOk(h, DeletionsFor(keyType), grow);
    LostIffStale(h, keyType, packet, grow);
    ReservationByStaying(h, keyType, packet, grow);
    StoringIsOk(stripped, tag, packet, grow);
    if HitsNeighbour(h, keyType, packet) {
      OverwrittenNeighbour(h, stripped, keyType, packet);
    }
  }

  lemma OverwrittenNeighbour(h: Header, stripped: Header, keyType: KeyType, packet: bytes)
    requires !keyType.OtherKey? && |packet| < U32_LIMIT && HitsNeighbour(h, keyType, packet)
    requires AllKept(stripped.entries, Staying(h.entries, keyType))
    ensures IndexOf(stripped.entries, SignatureTag(keyType)) > 0
    ensures EntryOk(Overwritten(stripped.entries, SignatureTag(keyType), packet)) <==>
            EntryOk(Neighbour(h, keyType).(count := |packet|, payload := packet))
  {
    hide EntryOk, Staying, InsertionPoint, IndexOf, Outgrows;
    var rest, tag := Staying(h.entries, keyType), SignatureTag(keyType);
    KeptIndices(stripped.entries, rest, tag);
    var i := IndexOf(rest, tag);
    OkByKind(stripped.entries[i - 1], rest[i - 1], |packet|, packet);
  }

  // ----- the region of a signed header

  // The region of the first trailer covers all entries.
  predicate CoversAll(h: Header) {
    var t := IndexOf(h.entries, TAG_HEADER_SIGNATURES);
    t >= 0 && |h.entries[t].payload| >= 12 && RegionCount(h.entries[t].payload) == |h.entries|
  }

  // The region covers all entries after signing: the last deletion or insertion saw to it, or else
  // it did so before; unless the packet was written to the trailer by mistake.
  predicate RegionSurvives(h: Header, keyType: KeyType, packet: bytes)
    requires !keyType.OtherKey?
  {
    var rest, tag := Staying(h.entries, keyType), SignatureTag(keyType);
    if HitsNeighbour(h, keyType, packet) && IndexOf(rest, TAG_HEADER_SIGNATURES) == IndexOf(rest, tag) - 1
    then |packet| >= 12 && RegionCount(packet) == |rest| + 1
    else
      || |rest| < |h.entries| || IndexOf(rest, tag) < 0
      || (Outgrows(h, keyType, packet) && !HasReservation(h)) || CoversAll(h)
  }

  lemma RegionCoversAll(h: Header)
    requires RegionOk(h) && IndexOf(h.entries, TAG_HEADER_SIGNATURES) >= 0
    ensures CoversAll(h)
  {
    hide RegionCount, TrailerWordsOk;
  }

  lemma SameTrailerCovers(h: Header, h': Header)
    requires SameTrailer(h, h')
    ensures CoversAll(h') <==> CoversAll(h)
  {
    hide RegionCount;
  }

  // Setting a signature: what it leaves of the region
  lemma StoringRegion(h: Header, tag: u32, payload: bytes, grow: Growth)
    requires !h.isMain && TrailerOk(h) && TrailerHasItsSize(h) && IndexOf(h.entries, TAG_HEADER_SIGNATURES) >= 0
    requires |h.entries| + 2 < 0x1000_0000 && |payload| < U32_LIMIT && !OwnedByEditor(tag) && tag < TAG_RESERVED_SPACE
    ensures CoversAll(SetOrAdd(h, tag, FORMAT_BINARY, |payload|, payload, grow)) <==>
              if GoesAstray(h, tag, payload) &&
                 IndexOf(h.entries, TAG_HEADER_SIGNATURES) == IndexOf(h.entries, tag) - 1
              then |payload| >= 12 && RegionCount(payload) == |h.entries| + 1
              else
                || IndexOf(h.entries, tag) < 0
                || (NeedsAllocation(h, tag, payload) && !HasReservation(h)) || CoversAll(h)
  {
    hide CoversAll, RegionCount, Allocate, Insert, TrailerOk, RegionOk, SameTrailer, AllKept;
    var n, i := |payload|, IndexOf(h.entries, tag);
    var allocation := Allocate(h, n, FORMAT_BINARY, grow);
    AllocationKeepsRegion(h, n, FORMAT_BINARY, grow);
    AllocationKeepsTrailerSize(h, n, FORMAT_BINARY, grow);
    AllocationItems(h, n, FORMAT_BINARY, grow, TAG_HEADER_SIGNATURES);
    AllocationIsReserving(h, n, FORMAT_BINARY, grow);
    KeptLength(allocation.h.entries, Reserving(h.entries, allocation.h.entries[ReservedAt(h.entries)]));
    if i < 0 {
      var e := Entry(tag, FORMAT_BINARY, allocation.address, n, payload);
      AddingRegion(allocation.h, e, grow);
    } else {
      WrittenRegion(h, tag, payload, grow);
    }
  }

  lemma AddingRegion(h: Header, e: Entry, grow: Growth)
    requires !h.isMain && TrailerOk(h) && TrailerHasItsSize(h) && IndexOf(h.entries, TAG_HEADER_SIGNATURES) >= 0
    requires |h.entries| + 1 < 0x1000_0000 && e.tag != TAG_HEADER_SIGNATURES
    ensures CoversAll(Insert(h, e, grow))
  {
    hide CoversAll, TrailerOk, RegionOk, Insert, ItemsWith;
    InsertSetsRegion(h, e, grow);
    InsertIsInsertion(h, e, grow);
    var k := InsertionPoint(h.entries, e.tag);
    var after := Insert(h, e, grow).entries;
    KeptItemsWith(after, InsertAt(h.entries, k, e), TAG_HEADER_SIGNATURES);
    ItemsOfInsertion(h.entries, k, e, TAG_HEADER_SIGNATURES);
    FirstItem(h.entries, TAG_HEADER_SIGNATURES);
    FirstItem(after, TAG_HEADER_SIGNATURES);
    RegionCoversAll(Insert(h, e, grow));
  }

  lemma WriteToTrailer(h: Header, i: nat, count: u32, payload: bytes)
    requires i < |h.entries|
    ensures CoversAll(SyncLayout(WithContents(h, i, count, payload))) <==>
              if i == IndexOf(h.entries, TAG_HEADER_SIGNATURES)
              then |payload| >= 12 && RegionCount(payload) == |h.entries| else CoversAll(h)
  {
    hide RegionCount, SyncLayout;
    var written := WithContents(h, i, count, payload);
    SyncKeepsTheTrailer(written);
    SameTrailerCovers(written, SyncLayout(written));
    if i == IndexOf(h.entries, TAG_HEADER_SIGNATURES) {
      IndexOfIs(written.entries, TAG_HEADER_SIGNATURES, i);
    } else {
      ReplacementKeepsTheTrailer(h, written, i);
      SameTrailerCovers(h, written);
    }
  }

  lemma ReachedRegion(h: Header, tag: u32, payload: bytes, grow: Growth)
    requires !h.isMain && TrailerOk(h) && TrailerHasItsSize(h) && IndexOf(h.entries, TAG_HEADER_SIGNATURES) >= 0
    requires |h.entries| + 2 < 0x1000_0000 && |payload| < U32_LIMIT && !OwnedByEditor(tag)
    ensures CoversAll(Allocated(h, tag, FORMAT_BINARY, payload, grow)) <==>
              (NeedsAllocation(h, tag, payload) && !HasReservation(h)) || CoversAll(h)
  {
    hide CoversAll, Allocate, TrailerOk, RegionOk, SameTrailer, NeedsAllocation;
    if NeedsAllocation(h, tag, payload) {
      var reached := Allocate(h, |payload|, FORMAT_BINARY, grow).h;
      AllocationKeepsRegion(h, |payload|, FORMAT_BINARY, grow);
      AllocationItems(h, |payload|, FORMAT_BINARY, grow, TAG_HEADER_SIGNATURES);
      if HasReservation(h) {
        SameTrailerCovers(h, reached);
      } else {
        RegionCoversAll(reached);
      }
    }
  }

  lemma WrittenRegion(h: Header, tag: u32, payload: bytes, grow: Growth)
    requires !h.isMain && TrailerOk(h) && TrailerHasItsSize(h) && IndexOf(h.entries, TAG_HEADER_SIGNATURES) >= 0
    requires |h.entries| + 2 < 0x1000_0000 && |payload| < U32_LIMIT && !OwnedByEditor(tag) && tag < TAG_RESERVED_SPACE
    requires IndexOf(h.entries, tag) >= 0
    ensures CoversAll(SetOrAdd(h, tag, FORMAT_BINARY, |payload|, payload, grow)) <==>
              if GoesAstray(h, tag, payload) &&
                 IndexOf(h.entries, TAG_HEADER_SIGNATURES) == IndexOf(h.entries, tag) - 1
              then |payload| >= 12 && RegionCount(payload) == |h.entries| + 1
              else (NeedsAllocation(h, tag, payload) && !HasReservation(h)) || CoversAll(h)
  {
    hide CoversAll, RegionCount, Allocate, TrailerOk, SyncLayout, NeedsAllocation, AllKept, InsertionPoint;
    var n, i := |payload|, IndexOf(h.entries, tag);
    var reached := Allocated(h, tag, FORMAT_BINARY, payload, grow);
    ReachedRegion(h, tag, payload, grow);
    ReachedEntry(h, tag, FORMAT_BINARY, payload, grow);
    if NeedsAllocation(h, tag, payload) {
      AllocationItems(h, n, FORMAT_BINARY, grow, TAG_HEADER_SIGNATURES);
      AllocationIsReserving(h, n, FORMAT_BINARY, grow);
      KeptLength(reached.entries, Reserving(h.entries, reached.entries[ReservedAt(h.entries)]));
    }
    if NeedsAllocation(h, tag, payload) && SliceMoves(h) {
      SyncKeepsTheTrailer(reached);
      SameTrailerCovers(reached, SyncLayout(reached));
    } else {
      WriteToTrailer(reached, i, n, payload);
    }
  }

  lemma {:induction false} DeletionsSetRegion(h: Header, ops: seq<Op>, grow: Growth)
    requires !h.isMain && TrailerOk(h) && |h.entries| < 0x1000_0000 && DeletionsOnly(ops) && CanRun(h, ops, grow)
    ensures TrailerOk(Run(h, ops, grow)) && !Run(h, ops, grow).isMain
    ensures RegionOk(h) || |Run(h, ops, grow).entries| < |h.entries| ==> RegionOk(Run(h, ops, grow))
    decreases |ops|
  {
    hide TrailerOk, RegionOk, Delete, AllKept;
    if ops != [] {
      var tag := ops[0].tag;
      DeleteSetsRegion(h, tag);
      DeleteIsWithout(h, tag);
      KeptLength(Delete(h, tag).entries, Without(h.entries, tag));
      DeletionKeepsKind(h, tag);
      DeletionsSetRegion(Apply(h, ops[0], grow), ops[1..], grow);
    }
  }

  lemma DeletionKeepsKind(h: Header, tag: u32)
    requires CanDelete(h, tag)
    ensures Delete(h, tag).isMain == h.isMain
  {
    hide LaidOut, LayoutSize;
  }

  // After signing, the region of the first trailer covers all entries exactly if it survives.
  lemma SignedRegion(h: Header, keyType: KeyType, packet: bytes, grow: Growth)
    requires Framed(h) && TrailerOk(h) && IndexOf(h.entries, TAG_HEADER_SIGNATURES) >= 0
    requires |h.entries| < 0x1000_0000 && CanSign(h, keyType, packet, grow)
    ensures !keyType.OtherKey?
    ensures CoversAll(SignedHeader(h, keyType, packet, grow)) <==> RegionSurvives(h, keyType, packet)
  {
    hide CanRun, Run, CoversAll, SetOrAdd, GoesAstray, HitsNeighbour, StruckTag, HasReservation;
    hide Staying, AllKept, Packed, Fits, TrailerOk, RegionOk, Outgrows, NeedsAllocation, CanAllocate, HasData;
    SigningInTwoSteps(h, keyType, packet, grow);
    var stripped, tag, rest := Stripped(h, keyType, grow), SignatureTag(keyType), Staying(h.entries, keyType);
    StrippedHeader(h, keyType, packet, grow);
    LostIffStale(h, keyType, packet, grow);
    OutgrowsIffNeeded(h, keyType, packet, grow);
    DeletionsSetRegion(h, DeletionsFor(keyType), grow);
    DeletionsKeepReservation(h, DeletionsFor(keyType), grow);
    KeptLength(stripped.entries, rest);
    KeptIndices(stripped.entries, rest, tag);
    KeptIndices(stripped.entries, rest, TAG_HEADER_SIGNATURES);
    StayingTrailer(h.entries, keyType);
    CanSetHasTrailerSize(stripped, tag, FORMAT_BINARY, packet);
    RoomIsThere(stripped, tag, packet);
    if |rest| < |h.entries| {
      RegionCoversAll(stripped);
    }
    StoringRegion(stripped, tag, packet, grow);
  }

  lemma StayingTrailer(entries: seq<Entry>, keyType: KeyType)
    requires !keyType.OtherKey? && IndexOf(entries, TAG_HEADER_SIGNATURES) >= 0
    ensures IndexOf(Staying(entries, keyType), TAG_HEADER_SIGNATURES) >= 0
  {
    hide Staying, ItemsWith, IndexOf;
    StayingItems(entries, keyType, TAG_HEADER_SIGNATURES);
    FirstItem(entries, TAG_HEADER_SIGNATURES);
    FirstItem(Staying(entries, keyType), TAG_HEADER_SIGNATURES);
  }

  // In a packed header the parser scans the first trailer last.
  lemma PackedTrailerIsLast(h: Header)
    requires Packed(h) && Fits(h.entries) && HasPayloads(h.entries) && !h.isMain
    ensures LastTrailer(h.entries, |h.entries|) == IndexOf(h.entries, TAG_HEADER_SIGNATURES)
  {
    hide LayoutOffset, LayoutSize, Fits, Packed, LastTrailer;
    var t, last := IndexOf(h.entries, TAG_HEADER_SIGNATURES), LastTrailer(h.entries, |h.entries|);
    if last >= 0 && last != t {
      PackedEntryIsPlaced(h, t);
      PackedEntryIsPlaced(h, last);
      PlacedInOrder(h.entries, t, last, t);
    }
  }

  lemma CountIsRead(h: Header)
    requires Packed(h) && Fits(h.entries) && HasPayloads(h.entries) && !h.isMain
    requires |h.entries| < 0x1000_0000 && IndexOf(h.entries, TAG_HEADER_SIGNATURES) >= 0
    ensures SignedCount(h.entries, false) == Some(|h.entries|) <==> CoversAll(h)
  {
    hide RegionCount, Packed, Fits;
    PackedTrailerIsLast(h);
  }

  // ----- the items of a signed header that the parser looks at

  // What signing makes of an item that is not a signature
  lemma OtherItem(h: Header, keyType: KeyType, packet: bytes, grow: Growth, t: u32)
    requires Framed(h) && |h.entries| < 0x1000_0000 && CanSign(h, keyType, packet, grow)
    requires !OwnedByEditor(t) && t != SignatureTag(keyType) && t !in DeletedTags(keyType)
    ensures var before, after := ItemOf(h, t), ItemOf(SignedHeader(h, keyType, packet, grow), t);
            || after == before
            || (before.Some? && after == Some(Item(before.value.format, |packet|, packet)) && |packet| > 1)
  {
    hide CanRun, Run, ItemsWith, ItemOf, SetOrAdd, CanAllocate, HasData, HitsNeighbour, GoesAstray, StruckTag, Staying;
    hide SignatureIsLost, KnownFormats;
    SigningInTwoSteps(h, keyType, packet, grow);
    var stripped, tag := Stripped(h, keyType, grow), SignatureTag(keyType);
    StrippedItems(h, keyType, grow, t);
    ItemIsFirst(h, t);
    ItemIsFirst(stripped, t);
    CanSetHasTrailerSize(stripped, tag, FORMAT_BINARY, packet);
    LostIffStale(h, keyType, packet, grow);
    if HitsNeighbour(h, keyType, packet) {
      StruckItem(stripped, tag, FORMAT_BINARY, |packet|, packet, grow, t);
      HitIsLong(h, keyType, packet);
    } else {
      SignedItems(h, keyType, packet, grow, t);
      ItemIsFirst(SignedHeader(h, keyType, packet, grow), t);
    }
  }

  lemma HitIsLong(h: Header, keyType: KeyType, packet: bytes)
    requires !keyType.OtherKey? && HasPayloads(h.entries) && HitsNeighbour(h, keyType, packet)
    ensures |packet| > 1
  {
    hide Staying, ItemsWith, SignatureIsLost;
    LostWasThere(h, keyType, packet);
    assert h.entries[IndexOf(h.entries, SignatureTag(keyType))].payload != [];
  }

  // A number or a string cannot hold more than one byte for each of its elements.
  lemma TooLongForItsCount(e: Entry)
    requires ShapeOk(e) && e.count == |e.payload| > 1
    ensures e.format != FORMAT_INT32 && e.format != FORMAT_STRING
  {
    if e.format == FORMAT_STRING {
      OneZeroInAll(e.payload);
    }
  }

  lemma OneZeroInAll(p: bytes)
    requires StringSize(p) == Some(|p|)
    ensures ZeroCount(p) == 1
  {
    StringHasOneZero(p, |p|);
    assert p[..|p|] == p;
  }

  // If all entries are accepted afterwards, the numbers and strings among them are as they were,
  // and no entry has appeared or gone.
  lemma CheckedItem(h: Header, keyType: KeyType, packet: bytes, grow: Growth, t: u32)
    requires Framed(h) && |h.entries| < 0x1000_0000 && CanSign(h, keyType, packet, grow)
    requires !OwnedByEditor(t) && t != SignatureTag(keyType) && t !in DeletedTags(keyType)
    requires AllOk(SignedHeader(h, keyType, packet, grow).entries)
    ensures var before, after := ItemOf(h, t), ItemOf(SignedHeader(h, keyType, packet, grow), t);
            && (after.Some? <==> before.Some?)
            && (before.Some? && before.value.format in {FORMAT_INT32, FORMAT_STRING} ==> after == before)
  {
    hide SignedHeader, CanSign, ShapeOk, Framed;
    OtherItem(h, keyType, packet, grow, t);
    var h' := SignedHeader(h, keyType, packet, grow);
    var i := IndexOf(h'.entries, t);
    if ItemOf(h', t) != ItemOf(h, t) {
      assert EntryOk(h'.entries[i]);
      TooLongForItsCount(h'.entries[i]);
    }
  }
}
