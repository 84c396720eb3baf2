// Whole runs of edits on a signature header: what they keep, and what the header is afterwards.
module EditorRuns {
  import opened Bits
  import opened Utils
  import opened Words
  import opened DynamicArrays
  import opened Headers
  import opened Layouts
  import opened Editing
  import opened HeaderMaps
  import opened Multimaps

  datatype Op = SetOp(tag: u32, format: u32, count: u32, payload: bytes) | DeleteOp(tag: u32)

  // An operation the source carries out without a panic or an overflow. The parser refuses
  // entries without a payload, so none is set.
  predicate CanApply(h: Header, op: Op) {
    && !OwnedByEditor(op.tag)
    && match op
       case SetOp(tag, format, _, payload) => payload != [] && CanSet(h, tag, format, payload)
       case DeleteOp(tag) => CanDelete(h, tag)
  }

  function Apply(h: Header, op: Op, grow: Growth): Header
    requires CanApply(h, op)
  {
    match op
    case SetOp(tag, format, count, payload) => SetOrAdd(h, tag, format, count, payload, grow)
    case DeleteOp(tag) => Delete(h, tag)
  }

  predicate CanRun(h: Header, ops: seq<Op>, grow: Growth)
    decreases |ops|
  {
    ops == [] || (CanApply(h, ops[0]) && CanRun(Apply(h, ops[0], grow), ops[1..], grow))
  }

  function Run(h: Header, ops: seq<Op>, grow: Growth): Header
    requires CanRun(h, ops, grow)
    decreases |ops|
  {
    if ops == [] then h else Run(Apply(h, ops[0], grow), ops[1..], grow)
  }

  // ----- the region trailer

  // What parseHeader checks of the trailer's words
  predicate TrailerWordsOk(payload: bytes) {
    && |payload| >= 16
    && WordOf(payload[..4]) == 0x3e && WordOf(payload[4..8]) == 0x7 && WordOf(payload[12..16]) == 16
  }

  // How many index entries parseHeader takes the region to have
  function RegionCount(payload: bytes): nat
    requires |payload| >= 12
  {
    Negated(WordOf(payload[8..12])) / 16
  }

  predicate RegionOk(h: Header) {
    var t := IndexOf(h.entries, TAG_HEADER_SIGNATURES);
    && (t >= 0 ==>
          var payload := h.entries[t].payload;
          |payload| == 16 && TrailerWordsOk(payload) && RegionCount(payload) == |h.entries|)
    && (h.signedCount.Some? ==> t >= 0 && h.signedCount.value == |h.entries|)
  }

  lemma RegionOfUpdate(payload: bytes, n: nat)
    requires |payload| == 16 && TrailerWordsOk(payload) && n < 0x1000_0000
    ensures TrailerWordsOk(WithRegion(payload, n)) && RegionCount(WithRegion(payload, n)) == n
  {
    var p, w := WithRegion(payload, n), Negated(U32(16 * n));
    assert p[..4] == payload[..4] && p[4..8] == payload[4..8] && p[12..16] == payload[12..16];
    assert p[8..12] == WordBytes(w);
    WordRoundTrip(w);
    RegionRoundTrip(n);
  }

  // ----- what every operation keeps

  predicate HasPayloads(entries: seq<Entry>) {
    forall i :: 0 <= i < |entries| ==> entries[i].payload != []
  }

  // What no edit can break, wherever it writes
  predicate Framed(h: Header) {
    && !h.isMain && KnownFormats(h.entries) && HasPayloads(h.entries)
    && h.indexEntryCount == |h.entries| <= h.capacity
  }

  // What holds between any two operations, unless a stale pointer hits the trailer
  predicate Intact(h: Header) {
    Framed(h) && RegionOk(h)
  }

  // What holds between any two operations if the tags ascend
  ghost predicate Sound(h: Header) {
    Intact(h) && Ascending(h.entries)
  }

  lemma SyncIsFramed(h: Header)
    requires Framed(h)
    ensures Framed(SyncLayout(h))
  {
    hide LayoutOffset, LayoutSize;
  }

  lemma SettledIsFramed(h: Header)
    requires Framed(h) && TrailerHasItsSize(h)
    ensures Framed(SyncLayout(UpdateTrailer(h)))
  {
    hide SyncLayout, WithRegion;
    SyncIsFramed(UpdateTrailer(h));
  }

  lemma InsertIsFramed(h: Header, e: Entry, grow: Growth)
    requires Framed(h) && TrailerHasItsSize(h) && |h.entries| + 1 < 0x1000_0000
    requires e.tag != TAG_HEADER_SIGNATURES && KnownFormat(e.format) && e.payload != []
    ensures Framed(Insert(h, e, grow))
  {
    hide SyncLayout, UpdateTrailer;
    InsertionKeepsTrailerSize(h, e, grow);
    SettledIsFramed(WithEntry(h, e, grow));
  }

  lemma DeleteIsFramed(h: Header, tag: u32)
    requires Framed(h) && TrailerHasItsSize(h) && tag != TAG_HEADER_SIGNATURES && |h.entries| < 0x1000_0000
    ensures Framed(Delete(h, tag)) && TrailerHasItsSize(Delete(h, tag))
  {
    hide SyncLayout, UpdateTrailer;
    var k := IndexOf(h.entries, tag);
    if k >= 0 {
      RemovalKeepsTrailerSize(h, k);
      SettledIsFramed(RemoveAtIndex(h, k));
      SettlingKeepsTrailerSize(RemoveAtIndex(h, k));
    }
  }

  lemma SettlingKeepsTrailerSize(h: Header)
    requires TrailerHasItsSize(h)
    ensures TrailerHasItsSize(SyncLayout(UpdateTrailer(h)))
  {
    hide SyncLayout, UpdateTrailer;
    SettlingKeeps(h);
    IndexOfIs(SyncLayout(UpdateTrailer(h)).entries, TAG_HEADER_SIGNATURES, IndexOf(h.entries, TAG_HEADER_SIGNATURES));
  }

  lemma OneAllocationIsFramed(h: Header, n: u32, format: u32)
    requires Framed(h) && IndexOf(h.entries, TAG_RESERVED_SPACE) >= 0
    ensures Framed(AllocateOnce(h, n, format).h)
    ensures |AllocateOnce(h, n, format).h.entries| == |h.entries|
  {
    hide AllocateOnce;
    OneAllocationKeeps(h, n, format);
  }

  lemma AllocationIsFramed(h: Header, n: u32, format: u32, grow: Growth)
    requires Framed(h) && TrailerHasItsSize(h) && |h.entries| + 1 < 0x1000_0000 && n + 8206 < U32_LIMIT
    ensures Framed(Allocate(h, n, format, grow).h)
    ensures |Allocate(h, n, format, grow).h.entries| <= |h.entries| + 1
  {
    hide AllocateOnce, Framed, Insert, NewReservation;
    var reserved := WithReservedSpace(h, n, format, grow);
    if IndexOf(h.entries, TAG_RESERVED_SPACE) < 0 {
      var e := NewReservation(h, n, format);
      InsertIsFramed(h, e, grow);
      InsertKeeps(h, e, grow);
    }
    StillReserved(reserved, n, format);
    OneAllocationIsFramed(reserved, n, format);
    OneAllocationIsFramed(AllocateOnce(reserved, n, format).h, n, format);
  }

  // An update through a stale pointer leaves a header too, though not the one asked for.
  lemma SetOrAddIsFramed(h: Header, tag: u32, format: u32, count: u32, payload: bytes, grow: Growth)
    requires Framed(h) && TrailerHasItsSize(h) && !OwnedByEditor(tag) && KnownFormat(format) && payload != []
    requires |h.entries| + 2 < 0x1000_0000 && |payload| + 8206 < U32_LIMIT
    ensures Framed(SetOrAdd(h, tag, format, count, payload, grow))
  {
    hide Allocate, Framed, Insert, SyncLayout, NeedsAllocation;
    AllocationIsFramed(h, |payload|, format, grow);
    AllocationKeepsTrailerSize(h, |payload|, format, grow);
    var i, allocation := IndexOf(h.entries, tag), Allocate(h, |payload|, format, grow);
    if i < 0 {
      InsertIsFramed(allocation.h, Entry(tag, format, allocation.address, count, payload), grow);
    } else {
      var reached := Allocated(h, tag, format, payload, grow);
      WrittenIsFramed(reached, i, count, payload);
      SyncIsFramed(WithContents(reached, i, count, payload));
      SyncIsFramed(reached);
    }
  }

  lemma WrittenIsFramed(h: Header, i: nat, count: u32, payload: bytes)
    requires Framed(h) && i < |h.entries| && payload != []
    ensures Framed(WithContents(h, i, count, payload))
  {
  }

  // ----- the region over all operations

  // The words of a trailer are valid, but its region may be out of date.
  predicate TrailerOk(h: Header) {
    var t := IndexOf(h.entries, TAG_HEADER_SIGNATURES);
    && (t >= 0 ==> |h.entries[t].payload| == 16 && TrailerWordsOk(h.entries[t].payload))
    && (h.signedCount.Some? ==> t >= 0)
  }

  lemma RegionHasTrailer(h: Header)
    requires RegionOk(h)
    ensures TrailerOk(h) && TrailerHasItsSize(h)
  {
    hide RegionCount, TrailerWordsOk;
  }

  // The first trailer is where it was, for as many entries.
  predicate SameTrailer(h: Header, h': Header) {
    var t := IndexOf(h.entries, TAG_HEADER_SIGNATURES);
    && IndexOf(h'.entries, TAG_HEADER_SIGNATURES) == t && |h'.entries| == |h.entries|
    && (t >= 0 ==> h'.entries[t].payload == h.entries[t].payload)
    && h'.signedCount == h.signedCount
  }

  lemma SameTrailerSameRegion(h: Header, h': Header)
    requires SameTrailer(h, h')
    ensures TrailerOk(h') == TrailerOk(h) && RegionOk(h') == RegionOk(h)
  {
    hide TrailerWordsOk, RegionCount;
  }

  lemma SyncKeepsTheTrailer(h: Header)
    ensures SameTrailer(h, SyncLayout(h))
  {
    hide LayoutOffset, LayoutSize;
    IndexOfIs(SyncLayout(h).entries, TAG_HEADER_SIGNATURES, IndexOf(h.entries, TAG_HEADER_SIGNATURES));
  }

  lemma SyncKeepsRegion(h: Header)
    ensures TrailerOk(SyncLayout(h)) == TrailerOk(h) && RegionOk(SyncLayout(h)) == RegionOk(h)
  {
    SyncKeepsTheTrailer(h);
    SameTrailerSameRegion(h, SyncLayout(h));
  }

  lemma UpdateSetsRegion(h: Header)
    requires !h.isMain && TrailerOk(h) && TrailerHasItsSize(h) && |h.entries| < 0x1000_0000
    ensures RegionOk(UpdateTrailer(h))
  {
    hide TrailerWordsOk, RegionCount, WithRegion;
    var t := IndexOf(h.entries, TAG_HEADER_SIGNATURES);
    IndexOfIs(UpdateTrailer(h).entries, TAG_HEADER_SIGNATURES, t);
    if t >= 0 {
      RegionOfUpdate(h.entries[t].payload, |h.entries|);
    }
  }

  lemma WithEntryKeepsTrailer(h: Header, e: Entry, grow: Growth)
    requires TrailerOk(h) && e.tag != TAG_HEADER_SIGNATURES
    ensures TrailerOk(WithEntry(h, e, grow))
  {
    hide TrailerWordsOk, InsertionPoint, IndexOf, U32;
    var k, t := InsertionPoint(h.entries, e.tag), IndexOf(h.entries, TAG_HEADER_SIGNATURES);
    IndexOfIs(WithEntry(h, e, grow).entries, TAG_HEADER_SIGNATURES, if t >= k then t + 1 else t);
  }

  lemma RemovalKeepsTrailer(h: Header, k: nat)
    requires TrailerOk(h) && k < |h.entries| && h.entries[k].tag != TAG_HEADER_SIGNATURES
    ensures TrailerOk(RemoveAtIndex(h, k))
  {
    hide TrailerWordsOk, IndexOf, U32;
    var t := IndexOf(h.entries, TAG_HEADER_SIGNATURES);
    IndexOfIs(RemoveAtIndex(h, k).entries, TAG_HEADER_SIGNATURES, if t > k then t - 1 else t);
  }

  // Replacing an entry other than the first trailer
  lemma ReplacementKeepsTheTrailer(h: Header, h': Header, k: nat)
    requires k < |h.entries| == |h'.entries| && k != IndexOf(h.entries, TAG_HEADER_SIGNATURES)
    requires h'.entries == h.entries[k := h'.entries[k]] && h'.entries[k].tag == h.entries[k].tag
    requires h'.signedCount == h.signedCount
    ensures SameTrailer(h, h')
  {
    IndexOfIs(h'.entries, TAG_HEADER_SIGNATURES, IndexOf(h.entries, TAG_HEADER_SIGNATURES));
  }

  lemma InsertSetsRegion(h: Header, e: Entry, grow: Growth)
    requires !h.isMain && TrailerOk(h) && TrailerHasItsSize(h) && |h.entries| + 1 < 0x1000_0000
    requires e.tag != TAG_HEADER_SIGNATURES
    ensures RegionOk(Insert(h, e, grow))
  {
    hide TrailerOk, RegionOk, SyncLayout, UpdateTrailer;
    InsertionKeepsTrailerSize(h, e, grow);
    WithEntryKeepsTrailer(h, e, grow);
    UpdateSetsRegion(WithEntry(h, e, grow));
    SyncKeepsRegion(UpdateTrailer(WithEntry(h, e, grow)));
  }

  lemma DeleteSetsRegion(h: Header, tag: u32)
    requires !h.isMain && TrailerOk(h) && TrailerHasItsSize(h) && |h.entries| < 0x1000_0000
    requires tag != TAG_HEADER_SIGNATURES
    ensures TrailerOk(Delete(h, tag))
    ensures RegionOk(h) || IndexOf(h.entries, tag) >= 0 ==> RegionOk(Delete(h, tag))
  {
    hide RegionOk, TrailerOk, SyncLayout, UpdateTrailer;
    var k := IndexOf(h.entries, tag);
    if k >= 0 {
      RemovalKeepsTrailerSize(h, k);
      RemovalKeepsTrailer(h, k);
      UpdateSetsRegion(RemoveAtIndex(h, k));
      SyncKeepsRegion(UpdateTrailer(RemoveAtIndex(h, k)));
      RegionHasTrailer(Delete(h, tag));
    }
  }

  lemma OneAllocationKeepsTheTrailer(h: Header, n: u32, format: u32)
    requires IndexOf(h.entries, TAG_RESERVED_SPACE) >= 0
    ensures SameTrailer(h, AllocateOnce(h, n, format).h)
  {
    hide AllocateOnce, SameTrailer;
    OneAllocationKeeps(h, n, format);
    var r, after := IndexOf(h.entries, TAG_RESERVED_SPACE), AllocateOnce(h, n, format).h;
    assert after.entries == h.entries[r := after.entries[r]];
    ReplacementKeepsTheTrailer(h, after, r);
  }

  lemma AllocationKeepsRegion(h: Header, n: u32, format: u32, grow: Growth)
    requires !h.isMain && TrailerOk(h) && TrailerHasItsSize(h) && |h.entries| + 1 < 0x1000_0000
    ensures var after := Allocate(h, n, format, grow).h;
            && !after.isMain && TrailerOk(after)
            && (if IndexOf(h.entries, TAG_RESERVED_SPACE) >= 0 then SameTrailer(h, after) else RegionOk(after))
  {
    hide AllocateOnce, RegionOk, TrailerOk, Insert, NewReservation, SameTrailer;
    var reserved := WithReservedSpace(h, n, format, grow);
    if IndexOf(h.entries, TAG_RESERVED_SPACE) < 0 {
      InsertSetsRegion(h, NewReservation(h, n, format), grow);
      InsertKeeps(h, NewReservation(h, n, format), grow);
      RegionHasTrailer(reserved);
    }
    StillReserved(reserved, n, format);
    var once := AllocateOnce(reserved, n, format).h;
    OneAllocationKeeps(reserved, n, format);
    OneAllocationKeepsTheTrailer(reserved, n, format);
    SameTrailerSameRegion(reserved, once);
    OneAllocationKeeps(once, n, format);
    OneAllocationKeepsTheTrailer(once, n, format);
    SameTrailerSameRegion(once, AllocateOnce(once, n, format).h);
    StillTheSameTrailer(reserved, once, AllocateOnce(once, n, format).h);
  }

  lemma StillTheSameTrailer(a: Header, b: Header, c: Header)
    requires SameTrailer(a, b) && SameTrailer(b, c)
    ensures SameTrailer(a, c)
  {
  }

  // The write through a pointer to the entry hits the trailer instead.
  predicate HitsTrailer(h: Header, tag: u32, payload: bytes) {
    GoesAstray(h, tag, payload) && StruckTag(h.entries, tag) == TAG_HEADER_SIGNATURES
  }

  lemma SetOrAddKeepsRegion(h: Header, tag: u32, format: u32, count: u32, payload: bytes, grow: Growth)
    requires !h.isMain && RegionOk(h) && TrailerHasItsSize(h) && !OwnedByEditor(tag)
    requires |h.entries| + 2 < 0x1000_0000 && |payload| < U32_LIMIT
    requires !HitsTrailer(h, tag, payload)
    ensures RegionOk(SetOrAdd(h, tag, format, count, payload, grow))
  {
    hide Allocate, RegionOk, TrailerOk, Insert, SyncLayout, NeedsAllocation, StruckTag, SameTrailer;
    RegionHasTrailer(h);
    AllocationKeepsRegion(h, |payload|, format, grow);
    AllocationKeepsTrailerSize(h, |payload|, format, grow);
    AllocationIsReserving(h, |payload|, format, grow);
    var i, allocation := IndexOf(h.entries, tag), Allocate(h, |payload|, format, grow);
    if i < 0 {
      InsertSetsRegion(allocation.h, Entry(tag, format, allocation.address, count, payload), grow);
    } else {
      var reached := Allocated(h, tag, format, payload, grow);
      if NeedsAllocation(h, tag, payload) && IndexOf(h.entries, TAG_RESERVED_SPACE) >= 0 {
        SameTrailerSameRegion(h, reached);
      }
      SyncKeepsRegion(reached);
      ReachedEntry(h, tag, format, payload, grow);
      if !(NeedsAllocation(h, tag, payload) && SliceMoves(h)) {
        var written := WithContents(reached, i, count, payload);
        ReplacementKeepsTheTrailer(reached, written, i);
        SameTrailerSameRegion(reached, written);
        SyncKeepsRegion(written);
      }
    }
  }

  // ----- the order of the tags over all operations

  lemma KeptAscends(after: seq<Entry>, before: seq<Entry>)
    requires AllKept(after, before) && Ascending(before)
    ensures Ascending(after)
  {
  }

  lemma InsertionAscends(entries: seq<Entry>, e: Entry)
    requires Ascending(entries) && IndexOf(entries, e.tag) < 0
    ensures Ascending(InsertAt(entries, InsertionPoint(entries, e.tag), e))
  {
    var k := InsertionPoint(entries, e.tag);
    var after := InsertAt(entries, k, e);
    forall i, j | 0 <= i < j < |after| ensures after[i].tag < after[j].tag {
      assert i < k ==> entries[i].tag != e.tag;
    }
  }

  lemma InsertAscends(h: Header, e: Entry, grow: Growth)
    requires Ascending(h.entries) && IndexOf(h.entries, e.tag) < 0
    requires e.tag != TAG_HEADER_SIGNATURES && TrailerHasItsSize(h)
    ensures Ascending(Insert(h, e, grow).entries)
  {
    hide Ascending, Insert, AllKept;
    InsertIsInsertion(h, e, grow);
    InsertionAscends(h.entries, e);
    KeptAscends(Insert(h, e, grow).entries, InsertAt(h.entries, InsertionPoint(h.entries, e.tag), e));
  }

  lemma DeleteAscends(h: Header, tag: u32)
    requires Ascending(h.entries) && tag != TAG_HEADER_SIGNATURES && TrailerHasItsSize(h)
    ensures Ascending(Delete(h, tag).entries)
  {
    hide Delete, AllKept;
    DeleteIsWithout(h, tag);
    KeptAscends(Delete(h, tag).entries, Without(h.entries, tag));
  }

  lemma AllocationAscends(h: Header, n: u32, format: u32, grow: Growth)
    requires Ascending(h.entries) && TrailerHasItsSize(h)
    ensures Ascending(Allocate(h, n, format, grow).h.entries)
  {
    hide Allocate, AllKept;
    AllocationIsReserving(h, n, format, grow);
    var after, r := Allocate(h, n, format, grow).h.entries, ReservedAt(h.entries);
    if IndexOf(h.entries, TAG_RESERVED_SPACE) < 0 {
      InsertionAscends(h.entries, after[r]);
    }
    KeptAscends(after, Reserving(h.entries, after[r]));
  }

  lemma SetOrAddAscends(h: Header, tag: u32, format: u32, count: u32, payload: bytes, grow: Growth)
    requires Ascending(h.entries) && TrailerHasItsSize(h) && !OwnedByEditor(tag)
    ensures Ascending(SetOrAdd(h, tag, format, count, payload, grow).entries)
  {
    hide Allocate, Ascending, Insert, SyncLayout, AllKept, NeedsAllocation;
    AllocationAscends(h, U32(|payload|), format, grow);
    AllocationKeepsTrailerSize(h, U32(|payload|), format, grow);
    AllocationItems(h, U32(|payload|), format, grow, tag);
    var i, allocation := IndexOf(h.entries, tag), Allocate(h, U32(|payload|), format, grow);
    if i < 0 {
      InsertAscends(allocation.h, Entry(tag, format, allocation.address, count, payload), grow);
    } else {
      var reached := Allocated(h, tag, format, payload, grow);
      var written := WithContents(reached, i, count, payload);
      WrittenAscends(reached, i, count, payload);
      SyncKeepsAll(reached);
      KeptAscends(SyncLayout(reached).entries, reached.entries);
      SyncKeepsAll(written);
      KeptAscends(SyncLayout(written).entries, written.entries);
    }
  }

  lemma WrittenAscends(h: Header, i: nat, count: u32, payload: bytes)
    requires i < |h.entries| && Ascending(h.entries)
    ensures Ascending(WithContents(h, i, count, payload).entries)
  {
  }

  // In a sorted header a pointer never hits the trailer.
  lemma SortedHitsNoTrailer(h: Header, tag: u32, payload: bytes)
    requires Ascending(h.entries) && !OwnedByEditor(tag)
    ensures !HitsTrailer(h, tag, payload)
  {
    hide NeedsAllocation;
  }

  // ----- one operation

  predicate Effective(h: Header, op: Op) {
    op.SetOp? || IndexOf(h.entries, op.tag) >= 0
  }

  lemma ApplyIsFramed(h: Header, op: Op, grow: Growth)
    requires Framed(h) && CanApply(h, op) && |h.entries| < 0x1000_0000
    ensures Framed(Apply(h, op, grow))
  {
    hide SetOrAdd, Delete, Framed, HasData;
    match op
    case SetOp(tag, format, count, payload) => SetOrAddIsFramed(h, tag, format, count, payload, grow);
    case DeleteOp(tag) => DeleteIsFramed(h, tag);
  }

  lemma ApplyKeepsRegion(h: Header, op: Op, grow: Growth)
    requires Intact(h) && CanApply(h, op) && |h.entries| < 0x1000_0000
    requires op.SetOp? ==> !HitsTrailer(h, op.tag, op.payload)
    ensures Intact(Apply(h, op, grow))
  {
    ApplyIsFramed(h, op, grow);
    hide SetOrAdd, Delete, RegionOk, HasData, HitsTrailer, KnownFormats, HasPayloads;
    match op
    case SetOp(tag, format, count, payload) => SetOrAddKeepsRegion(h, tag, format, count, payload, grow);
    case DeleteOp(tag) =>
      RegionHasTrailer(h);
      DeleteSetsRegion(h, tag);
  }

  lemma ApplyIsSound(h: Header, op: Op, grow: Growth)
    requires Sound(h) && CanApply(h, op) && |h.entries| < 0x1000_0000
    ensures Sound(Apply(h, op, grow))
  {
    hide SetOrAdd, Delete, Intact, HasData, Roomy, Ascending, HitsTrailer;
    match op
    case SetOp(tag, format, count, payload) =>
      SortedHitsNoTrailer(h, tag, payload);
      ApplyKeepsRegion(h, op, grow);
      SetOrAddAscends(h, tag, format, count, payload, grow);
    case DeleteOp(tag) =>
      ApplyKeepsRegion(h, op, grow);
      DeleteAscends(h, tag);
  }

  // Whatever an operation did, it ended by laying out the data.
  lemma ApplyPacks(h: Header, op: Op, grow: Growth)
    requires CanApply(h, op) && (Packed(h) || Effective(h, op))
    ensures Packed(Apply(h, op, grow))
  {
    hide SyncLayout, Allocate, UpdateTrailer, HasData, Roomy, NeedsAllocation;
    match op
    case SetOp(tag, format, count, payload) =>
      SetOrAddIsSynced(h, tag, format, count, payload, grow);
    case DeleteOp(tag) =>
      if IndexOf(h.entries, tag) >= 0 {
        RemovalKeepsTrailerSize(h, IndexOf(h.entries, tag));
        SyncIsIdempotent(UpdateTrailer(RemoveAtIndex(h, IndexOf(h.entries, tag))));
      }
  }

  lemma SetOrAddIsSynced(h: Header, tag: u32, format: u32, count: u32, payload: bytes, grow: Growth)
    requires TrailerHasItsSize(h) && tag != TAG_HEADER_SIGNATURES
    ensures Packed(SetOrAdd(h, tag, format, count, payload, grow))
  {
    hide SyncLayout, Allocate, UpdateTrailer, WithEntry, NeedsAllocation, Packed;
    var i := IndexOf(h.entries, tag);
    AllocationKeepsTrailerSize(h, U32(|payload|), format, grow);
    if i < 0 {
      var allocation := Allocate(h, U32(|payload|), format, grow);
      var e := Entry(tag, format, allocation.address, count, payload);
      InsertionKeepsTrailerSize(allocation.h, e, grow);
      SyncIsIdempotent(UpdateTrailer(WithEntry(allocation.h, e, grow)));
    } else {
      var reached := Allocated(h, tag, format, payload, grow);
      SyncIsIdempotent(WithContents(reached, i, count, payload));
      SyncIsIdempotent(reached);
    }
  }

  // ----- all runs

  // Some operation of the run finds something to do. The ones before it change nothing, so it
  // can be told from the header at the outset.
  ghost predicate Touches(h: Header, ops: seq<Op>) {
    exists i :: 0 <= i < |ops| && Effective(h, ops[i])
  }

  lemma IdleIsNothing(h: Header, op: Op, grow: Growth)
    requires CanApply(h, op) && !Effective(h, op)
    ensures Apply(h, op, grow) == h
  {
  }

  lemma TouchesLater(h: Header, ops: seq<Op>)
    requires ops != [] && !Effective(h, ops[0])
    ensures Touches(h, ops) <==> Touches(h, ops[1..])
  {
    hide Effective;
    if i :| 0 <= i < |ops| && Effective(h, ops[i]) {
      assert ops[1..][i - 1] == ops[i];
    }
    if i :| 0 <= i < |ops[1..]| && Effective(h, ops[1..][i]) {
      assert ops[i + 1] == ops[1..][i];
    }
  }

  // Every run leaves a header that is packed from its first effective operation on. Without one
  // it changes nothing.
  lemma {:induction false} RunIsFramed(h: Header, ops: seq<Op>, grow: Growth)
    requires Framed(h) && CanRun(h, ops, grow) && |h.entries| < 0x1000_0000
    ensures Framed(Run(h, ops, grow)) && |Run(h, ops, grow).entries| < 0x1000_0000
    ensures Packed(h) || Touches(h, ops) ==> Packed(Run(h, ops, grow))
    ensures !Touches(h, ops) ==> Run(h, ops, grow) == h
    decreases |ops|
  {
    hide Framed, Packed, Apply, CanApply, Effective, Touches;
    if ops == [] {
      assert !Touches(h, ops) by { NothingTouches(h, ops); }
    } else {
      ApplyIsFramed(h, ops[0], grow);
      FewEntries(h, ops[0], grow);
      if Packed(h) || Effective(h, ops[0]) {
        ApplyPacks(h, ops[0], grow);
      }
      if Effective(h, ops[0]) {
        assert Touches(h, ops) by { FirstTouches(h, ops); }
      } else {
        IdleIsNothing(h, ops[0], grow);
        TouchesLater(h, ops);
      }
      RunIsFramed(Apply(h, ops[0], grow), ops[1..], grow);
    }
  }

  // Every run keeps a sorted header sorted, and its region up to date.
  lemma {:induction false} RunStaysSound(h: Header, ops: seq<Op>, grow: Growth)
    requires Sound(h) && CanRun(h, ops, grow) && |h.entries| < 0x1000_0000
    ensures Sound(Run(h, ops, grow))
    decreases |ops|
  {
    hide Sound, Apply, CanApply;
    if ops != [] {
      ApplyIsSound(h, ops[0], grow);
      FewEntries(h, ops[0], grow);
      RunStaysSound(Apply(h, ops[0], grow), ops[1..], grow);
    }
  }

  lemma RunIsSound(h: Header, ops: seq<Op>, grow: Growth)
    requires Sound(h) && CanRun(h, ops, grow) && |h.entries| < 0x1000_0000
    ensures Sound(Run(h, ops, grow)) && |Run(h, ops, grow).entries| < 0x1000_0000
    ensures Packed(h) || Touches(h, ops) ==> Packed(Run(h, ops, grow))
    ensures !Touches(h, ops) ==> Run(h, ops, grow) == h
  {
    hide RegionOk, Ascending, Packed, Touches, Run, CanRun;
    RunStaysSound(h, ops, grow);
    RunIsFramed(h, ops, grow);
  }

  lemma NothingTouches(h: Header, ops: seq<Op>)
    requires ops == []
    ensures !Touches(h, ops)
  {
  }

  lemma FirstTouches(h: Header, ops: seq<Op>)
    requires ops != [] && Effective(h, ops[0])
    ensures Touches(h, ops)
  {
  }

  lemma FewEntries(h: Header, op: Op, grow: Growth)
    requires CanApply(h, op) && |h.entries| < 0x1000_0000
    ensures |Apply(h, op, grow).entries| < 0x1000_0000
    ensures |Apply(h, op, grow).entries| <= |h.entries| + 2
  {
    hide Allocate, Insert, SyncLayout, UpdateTrailer, HasData, NeedsAllocation;
    match op
    case SetOp(tag, format, count, payload) =>
      AllocationIsReserving(h, |payload|, format, grow);
      AllocationKeepsTrailerSize(h, |payload|, format, grow);
      SetOrAddKeepsLength(h, tag, format, count, payload, grow);
    case DeleteOp(tag) =>
      if IndexOf(h.entries, tag) >= 0 {
        DeleteKeeps(h, tag);
      }
  }

  lemma SetOrAddKeepsLength(h: Header, tag: u32, format: u32, count: u32, payload: bytes, grow: Growth)
    requires TrailerHasItsSize(h) && tag != TAG_HEADER_SIGNATURES
    ensures |SetOrAdd(h, tag, format, count, payload, grow).entries|
         <= Max(|h.entries|, |Allocate(h, U32(|payload|), format, grow).h.entries| + 1)
  {
    hide Allocate, Insert, NeedsAllocation;
    AllocationKeepsTrailerSize(h, U32(|payload|), format, grow);
    var allocation := Allocate(h, U32(|payload|), format, grow);
    InsertKeeps(allocation.h, Entry(tag, format, allocation.address, count, payload), grow);
  }

  // ----- what rpm and the writer ask of a header

  ghost predicate Consistent(h: Header) {
    var t := TrailerIndex(h);
    && h.indexEntryCount == |h.entries|
    && (h.signedCount.Some? ==> h.signedCount.value == |h.entries|)
    && Ascending(h.entries)
    && PairwiseDisjoint(Pieces(h.entries))
    && |Image(Pieces(h.entries))| == h.storeSize
    && IsLayout(h.entries, t, Offsets(h.entries))
    && (t >= 0 ==> h.entries[t].offset + |h.entries[t].payload| == h.storeSize)
  }

  lemma LayoutIsDisjoint(entries: seq<Entry>, trailer: int)
    requires -1 <= trailer < |entries| && IsLayout(entries, trailer, Offsets(entries))
    ensures PairwiseDisjoint(Pieces(entries))
  {
    var offsets, pieces := Offsets(entries), Pieces(entries);
    forall i, j | 0 <= i < j < |pieces| ensures pieces[i].DisjointFrom(pieces[j]) {
      assert offsets[i] == pieces[i].offset && offsets[j] == pieces[j].offset;
      assert pieces[i].End() <= pieces[j].offset || pieces[j].End() <= pieces[i].offset;
    }
  }

  lemma PackedEndsWithStore(h: Header)
    requires Packed(h) && Fits(h.entries)
    ensures MaxEnd(Pieces(h.entries)) == h.storeSize
    ensures TrailerIndex(h) >= 0 ==>
              h.entries[TrailerIndex(h)].offset + |h.entries[TrailerIndex(h)].payload| == h.storeSize
  {
    hide CalcAlignmentByteCount, LayoutOffset, LayoutSize, Fits;
    var trailer, n, pieces := TrailerIndex(h), |h.entries|, Pieces(h.entries);
    assert forall i :: 0 <= i < n ==> SyncLayout(h).entries[i] == h.entries[i];
    if n > 0 {
      var i := MaxEndIsReached(pieces);
      PlacedInStore(h.entries, trailer, i);
      var last := if trailer >= 0 then trailer else n - 1;
      PlacedInStore(h.entries, trailer, last);
      if trailer < 0 {
        EndStep(h.entries, trailer, last);
        StoreWithoutTrailer(h.entries, trailer);
      }
      assert pieces[last].End() == h.storeSize;
    } else {
      StoreWithoutTrailer(h.entries, trailer);
    }
  }

  lemma StoreWithoutTrailer(entries: seq<Entry>, trailer: int)
    requires trailer == -1
    ensures LayoutSize(entries, trailer) == EndOfFirst(entries, trailer, |entries|)
  {
  }

  lemma SettledIsConsistent(h: Header)
    requires Sound(h) && Packed(h) && Fits(h.entries)
    ensures Consistent(h)
  {
    hide CalcAlignmentByteCount, EndOfFirst, LayoutOffset, LayoutSize, MaxEnd, Fits, IsLayout;
    var trailer := TrailerIndex(h);
    assert LaidOut(h.entries, trailer) == h.entries by {
      assert SyncLayout(h).entries == h.entries;
    }
    LaidOutIsLayout(h.entries, trailer);
    LayoutIsDisjoint(h.entries, trailer);
    PackedEndsWithStore(h);
  }
}
