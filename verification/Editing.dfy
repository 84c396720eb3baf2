// What the operations of RpmHeader (common/rpmparser.go:562-905) make of a header.
module Editing {
  import opened Bits
  import opened Utils
  import opened Words
  import opened DynamicArrays
  import opened Headers
  import opened Layouts

  const RESERVED_SPACE_ALLOCATION_SIZE: nat := 4096

  // The capacity the Go runtime gives a slice of n elements that had to be moved
  type Growth = nat -> nat

  // ----- updateSignedRegionTrailer

  // The trailer is rewritten in place, which takes exactly 16 bytes.
  predicate TrailerHasItsSize(h: Header) {
    var t := IndexOf(h.entries, TAG_HEADER_SIGNATURES);
    h.isMain || t < 0 || |h.entries[t].payload| == 16
  }

  function WithRegion(payload: bytes, n: nat): (p: bytes)
    requires |payload| == 16
    ensures |p| == 16
  {
    payload[..8] + WordBytes(Negated(U32(16 * n))) + payload[12..]
  }

  function UpdateTrailer(h: Header): Header
    requires TrailerHasItsSize(h)
  {
    var t := IndexOf(h.entries, TAG_HEADER_SIGNATURES);
    if h.isMain || t < 0 then h
    else
      var trailer := h.entries[t];
      h.(entries := h.entries[t := trailer.(payload := WithRegion(trailer.payload, |h.entries|))],
         signedCount := if h.signedCount.Some? then Some(U32(16 * |h.entries|) / 16) else None)
  }

  // ----- DeleteIndexEntryIfExists

  function RemoveAtIndex(h: Header, i: nat): Header
    requires i < |h.entries|
  {
    h.(entries := h.entries[..i] + h.entries[i + 1..], indexEntryCount := U32(h.indexEntryCount - 1))
  }

  lemma RemovalKeepsTrailerSize(h: Header, i: nat)
    requires i < |h.entries| && h.entries[i].tag != TAG_HEADER_SIGNATURES && TrailerHasItsSize(h)
    ensures TrailerHasItsSize(RemoveAtIndex(h, i))
  {
    var t := IndexOf(h.entries, TAG_HEADER_SIGNATURES);
    var after := RemoveAtIndex(h, i).entries;
    IndexOfIs(after, TAG_HEADER_SIGNATURES, if t > i then t - 1 else t);
  }

  function Delete(h: Header, tag: u32): Header
    requires tag != TAG_HEADER_SIGNATURES && TrailerHasItsSize(h)
  {
    var i := IndexOf(h.entries, tag);
    if i < 0 then h
    else
      RemovalKeepsTrailerSize(h, i);
      SyncLayout(UpdateTrailer(RemoveAtIndex(h, i)))
  }

  // ----- insertIndexEntry

  function InsertionPoint(entries: seq<Entry>, tag: u32): (i: nat)
    ensures i <= |entries|
    ensures forall j :: 0 <= j < i ==> entries[j].tag <= tag
    ensures i < |entries| ==> entries[i].tag > tag
  {
    if entries == [] || entries[0].tag > tag then 0 else 1 + InsertionPoint(entries[1..], tag)
  }

  lemma InsertionPointIs(entries: seq<Entry>, tag: u32, i: nat)
    requires i <= |entries|
    requires forall j :: 0 <= j < i ==> entries[j].tag <= tag
    requires i < |entries| ==> entries[i].tag > tag
    ensures InsertionPoint(entries, tag) == i
  {
  }

  function InsertAt(entries: seq<Entry>, i: nat, e: Entry): (after: seq<Entry>)
    requires i <= |entries|
    ensures |after| == |entries| + 1
    ensures forall j :: 0 <= j < |after| ==>
              after[j] == if j < i then entries[j] else if j == i then e else entries[j - 1]
  {
    entries[..i] + [e] + entries[i..]
  }

  function WithEntry(h: Header, e: Entry, grow: Growth): Header {
    var n := |h.entries| + 1;
    h.(entries := InsertAt(h.entries, InsertionPoint(h.entries, e.tag), e),
       capacity := if n <= h.capacity then h.capacity else Max(n, grow(n)),
       indexEntryCount := U32(h.indexEntryCount + 1))
  }

  lemma InsertionKeepsTrailerSize(h: Header, e: Entry, grow: Growth)
    requires e.tag != TAG_HEADER_SIGNATURES && TrailerHasItsSize(h)
    ensures TrailerHasItsSize(WithEntry(h, e, grow))
  {
    hide InsertionPoint, U32;
    var t, i := IndexOf(h.entries, TAG_HEADER_SIGNATURES), InsertionPoint(h.entries, e.tag);
    IndexOfIs(WithEntry(h, e, grow).entries, TAG_HEADER_SIGNATURES, if t >= i then t + 1 else t);
  }

  function Insert(h: Header, e: Entry, grow: Growth): Header
    requires e.tag != TAG_HEADER_SIGNATURES && TrailerHasItsSize(h)
  {
    InsertionKeepsTrailerSize(h, e, grow);
    SyncLayout(UpdateTrailer(WithEntry(h, e, grow)))
  }

  // The entry b is still there as a: only its offset, and the payload of a trailer, may differ.
  predicate Kept(a: Entry, b: Entry) {
    && a.tag == b.tag && a.format == b.format && a.count == b.count && |a.payload| == |b.payload|
    && (a.tag != TAG_HEADER_SIGNATURES ==> a.payload == b.payload)
  }

  lemma SettlingKeeps(h: Header)
    requires TrailerHasItsSize(h)
    ensures var after := SyncLayout(UpdateTrailer(h));
            && after.isMain == h.isMain && |after.entries| == |h.entries|
            && forall j :: 0 <= j < |after.entries| ==> Kept(after.entries[j], h.entries[j])
  {
  }

  // What Insert makes of the entry at index j
  lemma InsertKeeps(h: Header, e: Entry, grow: Growth)
    requires e.tag != TAG_HEADER_SIGNATURES && TrailerHasItsSize(h)
    ensures var k, after := InsertionPoint(h.entries, e.tag), Insert(h, e, grow).entries;
            && |after| == |h.entries| + 1 && Insert(h, e, grow).isMain == h.isMain
            && Kept(after[k], e)
            && (forall j :: 0 <= j < k ==> Kept(after[j], h.entries[j]))
            && (forall j :: k < j < |after| ==> Kept(after[j], h.entries[j - 1]))
  {
    hide SyncLayout, UpdateTrailer;
    InsertionKeepsTrailerSize(h, e, grow);
    SettlingKeeps(WithEntry(h, e, grow));
  }

  lemma DeleteKeeps(h: Header, tag: u32)
    requires tag != TAG_HEADER_SIGNATURES && TrailerHasItsSize(h) && IndexOf(h.entries, tag) >= 0
    ensures var k, after := IndexOf(h.entries, tag), Delete(h, tag).entries;
            && |after| == |h.entries| - 1
            && (forall j :: 0 <= j < k ==> Kept(after[j], h.entries[j]))
            && (forall j :: k <= j < |after| ==> Kept(after[j], h.entries[j + 1]))
  {
    hide SyncLayout, UpdateTrailer;
    RemovalKeepsTrailerSize(h, IndexOf(h.entries, tag));
    SettlingKeeps(RemoveAtIndex(h, IndexOf(h.entries, tag)));
  }

  lemma InsertKeepsTrailerSize(h: Header, e: Entry, grow: Growth)
    requires e.tag != TAG_HEADER_SIGNATURES && TrailerHasItsSize(h)
    ensures TrailerHasItsSize(Insert(h, e, grow))
  {
    hide SyncLayout, UpdateTrailer;
    var with := WithEntry(h, e, grow);
    InsertionKeepsTrailerSize(h, e, grow);
    SettlingKeeps(with);
    IndexOfIs(Insert(h, e, grow).entries, TAG_HEADER_SIGNATURES, IndexOf(with.entries, TAG_HEADER_SIGNATURES));
  }

  // ----- isAtEndOfDataStore, FindNextSuitablePayloadOffset

  // Among the first n entries other than the trailer, the first with the largest end offset,
  // or -1 if nothing ends behind offset 0
  function LastByEnd(entries: seq<Entry>, trailer: int, n: nat): (i: int)
    requires n <= |entries|
    ensures -1 <= i < n && (i >= 0 ==> i != trailer && entries[i].EndOffset() > 0)
    ensures forall j :: 0 <= j < n && j != trailer ==>
              entries[j].EndOffset() <= if i < 0 then 0 else entries[i].EndOffset()
    ensures forall j :: 0 <= j < i && j != trailer ==> entries[j].EndOffset() < entries[i].EndOffset()
  {
    if n == 0 then -1
    else
      var i := LastByEnd(entries, trailer, n - 1);
      if n - 1 != trailer && entries[n - 1].EndOffset() > (if i < 0 then 0 else entries[i].EndOffset())
      then n - 1 else i
  }

  // The source panics when there is no such entry.
  predicate IsAtEnd(h: Header, tag: u32) {
    var last := LastByEnd(h.entries, TrailerIndex(h), |h.entries|);
    last >= 0 && h.entries[last].tag == tag
  }

  function LastByOffset(entries: seq<Entry>, trailer: int, n: nat): (i: int)
    requires n <= |entries|
    ensures -1 <= i < n && (i >= 0 ==> i != trailer)
    ensures forall j :: 0 <= j < n && j != trailer ==> i >= 0 && entries[j].offset <= entries[i].offset
    ensures forall j :: 0 <= j < i && j != trailer ==> entries[j].offset < entries[i].offset
  {
    if n == 0 then -1
    else
      var i := LastByOffset(entries, trailer, n - 1);
      if n - 1 != trailer && (i < 0 || entries[n - 1].offset > entries[i].offset) then n - 1 else i
  }

  function FindNextSuitablePayloadOffset(h: Header, format: u32): u32 {
    var last := LastByOffset(h.entries, TrailerIndex(h), |h.entries|);
    if last < 0 then 0
    else
      var end := h.entries[last].EndOffset();
      U32(end + CalcAlignmentByteCount(end, GetRequiredAlignment(format)))
  }

  // ----- allocateSpaceInDatastore

  // done is false when the source calls itself again with the header reached so far.
  datatype Allocation = Allocation(h: Header, address: u32, done: bool)

  function WithReservation(h: Header, r: nat, offset: u32, size: nat): Header
    requires r < |h.entries|
  {
    h.(entries := h.entries[r := h.entries[r].(offset := offset, count := U32(size), payload := Zeros(size))])
  }

  // One activation of the allocator on a header that has reserved space
  function AllocateOnce(h: Header, requestedSize: u32, format: u32): Allocation
    requires IndexOf(h.entries, TAG_RESERVED_SPACE) >= 0
  {
    var r := IndexOf(h.entries, TAG_RESERVED_SPACE);
    var reserved := h.entries[r];
    var alignment := CalcAlignmentByteCount(reserved.offset, GetRequiredAlignment(format));
    var address := U32(reserved.offset + alignment);
    var actualSize := U32(requestedSize + alignment);
    var remaining := reserved.count - actualSize;
    if remaining > 0 then
      Allocation(WithReservation(h, r, U32(reserved.offset + actualSize), remaining), address, true)
    else if remaining == 0 then
      Allocation(WithReservation(h, r, U32(reserved.offset + actualSize), RESERVED_SPACE_ALLOCATION_SIZE),
                 address, true)
    else
      var grown := WithReservation(h, r, reserved.offset, actualSize + RESERVED_SPACE_ALLOCATION_SIZE);
      if IsAtEnd(h, TAG_RESERVED_SPACE) then Allocation(grown, 0, false)
      else
        var moved := grown.entries[r].(offset := FindNextSuitablePayloadOffset(grown, FORMAT_BINARY));
        Allocation(grown.(entries := grown.entries[r := moved]), 0, false)
  }

  // A reservation that is large enough for the request, placed behind everything else
  function NewReservation(h: Header, requestedSize: u32, format: u32): (e: Entry)
    ensures e.tag == TAG_RESERVED_SPACE && e.format == FORMAT_BINARY && e.count == |e.payload|
    ensures requestedSize + 8206 < U32_LIMIT ==>
              4096 + requestedSize <= e.count <= 4103 + requestedSize
  {
    var start := FindNextSuitablePayloadOffset(h, FORMAT_BINARY);
    var alignment := CalcAlignmentByteCount(start, GetRequiredAlignment(format));
    var size := U32(RESERVED_SPACE_ALLOCATION_SIZE + requestedSize + alignment);
    Entry(TAG_RESERVED_SPACE, FORMAT_BINARY, start, size, Zeros(size))
  }

  lemma InsertedIsFound(h: Header, e: Entry, grow: Growth)
    requires e.tag != TAG_HEADER_SIGNATURES && TrailerHasItsSize(h)
    ensures IndexOf(Insert(h, e, grow).entries, e.tag) >= 0
    ensures IndexOf(h.entries, e.tag) < 0 ==>
              IndexOf(Insert(h, e, grow).entries, e.tag) == InsertionPoint(h.entries, e.tag)
  {
    InsertKeeps(h, e, grow);
    if IndexOf(h.entries, e.tag) < 0 {
      IndexOfIs(Insert(h, e, grow).entries, e.tag, InsertionPoint(h.entries, e.tag));
    } else {
      assert Insert(h, e, grow).entries[InsertionPoint(h.entries, e.tag)].tag == e.tag;
    }
  }

  function WithReservedSpace(h: Header, requestedSize: u32, format: u32, grow: Growth): (after: Header)
    requires TrailerHasItsSize(h)
    ensures IndexOf(after.entries, TAG_RESERVED_SPACE) >= 0
  {
    if IndexOf(h.entries, TAG_RESERVED_SPACE) >= 0 then h
    else
      InsertedIsFound(h, NewReservation(h, requestedSize, format), grow);
      Insert(h, NewReservation(h, requestedSize, format), grow)
  }

  // The allocator: it needs a second activation only after it made the reserved space larger.
  function Allocate(h: Header, requestedSize: u32, format: u32, grow: Growth): Allocation
    requires TrailerHasItsSize(h)
  {
    var first := AllocateOnce(WithReservedSpace(h, requestedSize, format, grow), requestedSize, format);
    if first.done then first
    else
      StillReserved(WithReservedSpace(h, requestedSize, format, grow), requestedSize, format);
      AllocateOnce(first.h, requestedSize, format)
  }

  lemma StillReserved(h: Header, requestedSize: u32, format: u32)
    requires IndexOf(h.entries, TAG_RESERVED_SPACE) >= 0
    ensures IndexOf(AllocateOnce(h, requestedSize, format).h.entries, TAG_RESERVED_SPACE) ==
            IndexOf(h.entries, TAG_RESERVED_SPACE)
  {
    IndexOfIs(AllocateOnce(h, requestedSize, format).h.entries, TAG_RESERVED_SPACE,
              IndexOf(h.entries, TAG_RESERVED_SPACE));
  }

  // ----- SetOrAddIndexEntry

  // The index of a header entry gets new contents; its offset is settled by the layout.
  function WithContents(h: Header, i: nat, count: u32, payload: bytes): Header
    requires i < |h.entries|
  {
    h.(entries := h.entries[i := h.entries[i].(count := count, payload := payload)])
  }

  // A payload outgrows an entry that has data behind it: space has to be allocated.
  predicate NeedsAllocation(h: Header, tag: u32, payload: bytes) {
    var i := IndexOf(h.entries, tag);
    i >= 0 && |payload| > |h.entries[i].payload| && !IsAtEnd(h, tag)
  }

  // The allocation inserts an entry although a pointer into the slice is still in use, and the
  // slice has no capacity left: it moves, and the write through the pointer is lost.
  predicate SliceMoves(h: Header) {
    IndexOf(h.entries, TAG_RESERVED_SPACE) < 0 && |h.entries| + 1 > h.capacity
  }

  // The header after the allocation, if there is one
  function Allocated(h: Header, tag: u32, format: u32, payload: bytes, grow: Growth): Header
    requires TrailerHasItsSize(h)
  {
    if NeedsAllocation(h, tag, payload) then Allocate(h, U32(|payload|), format, grow).h else h
  }

  function SetOrAdd(h: Header, tag: u32, format: u32, count: u32, payload: bytes, grow: Growth): Header
    requires tag != TAG_HEADER_SIGNATURES && TrailerHasItsSize(h)
  {
    var i := IndexOf(h.entries, tag);
    AllocationKeepsTrailerSize(h, U32(|payload|), format, grow);
    var reached := Allocated(h, tag, format, payload, grow);
    if i < 0 then
      var allocation := Allocate(h, U32(|payload|), format, grow);
      Insert(allocation.h, Entry(tag, format, allocation.address, count, payload), grow)
    else if NeedsAllocation(h, tag, payload) && SliceMoves(h) then SyncLayout(reached)
    else SyncLayout(WithContents(reached, i, count, payload))
  }

  lemma AllocationKeepsTrailerSize(h: Header, requestedSize: u32, format: u32, grow: Growth)
    requires TrailerHasItsSize(h)
    ensures TrailerHasItsSize(Allocate(h, requestedSize, format, grow).h)
    ensures |Allocate(h, requestedSize, format, grow).h.entries| >= |h.entries|
  {
    var reserved := WithReservedSpace(h, requestedSize, format, grow);
    if IndexOf(h.entries, TAG_RESERVED_SPACE) < 0 {
      InsertKeepsTrailerSize(h, NewReservation(h, requestedSize, format), grow);
    }
    OneAllocationKeepsTrailerSize(reserved, requestedSize, format);
    StillReserved(reserved, requestedSize, format);
    OneAllocationKeepsTrailerSize(AllocateOnce(reserved, requestedSize, format).h, requestedSize, format);
  }

  lemma OneAllocationKeepsTrailerSize(h: Header, requestedSize: u32, format: u32)
    requires IndexOf(h.entries, TAG_RESERVED_SPACE) >= 0 && TrailerHasItsSize(h)
    ensures TrailerHasItsSize(AllocateOnce(h, requestedSize, format).h)
    ensures |AllocateOnce(h, requestedSize, format).h.entries| == |h.entries|
  {
    hide U32, IsAtEnd, FindNextSuitablePayloadOffset, CalcAlignmentByteCount;
    IndexOfIs(AllocateOnce(h, requestedSize, format).h.entries, TAG_HEADER_SIGNATURES,
              IndexOf(h.entries, TAG_HEADER_SIGNATURES));
  }

  // ----- What the operations ask of their callers: where they would panic or overflow

  predicate KnownFormats(entries: seq<Entry>) {
    forall i :: 0 <= i < |entries| ==> KnownFormat(entries[i].format)
  }

  lemma TrailerUpdateKeepsFormats(h: Header)
    requires TrailerHasItsSize(h) && KnownFormats(h.entries)
    ensures KnownFormats(UpdateTrailer(h).entries)
  {
  }

  lemma InsertKeepsFormats(h: Header, e: Entry, grow: Growth)
    requires e.tag != TAG_HEADER_SIGNATURES && TrailerHasItsSize(h)
    requires KnownFormats(h.entries) && KnownFormat(e.format)
    ensures KnownFormats(Insert(h, e, grow).entries)
  {
    InsertKeeps(h, e, grow);
  }

  lemma OneAllocationKeeps(h: Header, requestedSize: u32, format: u32)
    requires IndexOf(h.entries, TAG_RESERVED_SPACE) >= 0
    ensures var r, after := IndexOf(h.entries, TAG_RESERVED_SPACE), AllocateOnce(h, requestedSize, format).h;
            && after == h.(entries := after.entries)
            && |after.entries| == |h.entries|
            && (forall j :: 0 <= j < |after.entries| && j != r ==> after.entries[j] == h.entries[j])
            && after.entries[r].tag == TAG_RESERVED_SPACE && after.entries[r].format == h.entries[r].format
            && after.entries[r].payload != []
  {
  }

  lemma AllocationKeepsFormats(h: Header, requestedSize: u32, format: u32, grow: Growth)
    requires TrailerHasItsSize(h) && KnownFormats(h.entries)
    ensures KnownFormats(Allocate(h, requestedSize, format, grow).h.entries)
  {
    hide Insert, AllocateOnce, NewReservation;
    var reserved := WithReservedSpace(h, requestedSize, format, grow);
    if IndexOf(h.entries, TAG_RESERVED_SPACE) < 0 {
      InsertKeepsFormats(h, NewReservation(h, requestedSize, format), grow);
    }
    OneAllocationKeeps(reserved, requestedSize, format);
    StillReserved(reserved, requestedSize, format);
    OneAllocationKeeps(AllocateOnce(reserved, requestedSize, format).h, requestedSize, format);
  }

  // Far enough from the end of the 32-bit address space for a request of n bytes
  predicate Roomy(h: Header, n: nat) {
    && MaxEnd(Pieces(h.entries)) + Span(h.entries, |h.entries|) + 4 * (n + 8206) < U32_LIMIT
    && |h.entries| + 2 < 0x1000_0000
  }

  // isAtEndOfDataStore panics on a header without data.
  predicate HasData(h: Header) {
    LastByEnd(h.entries, TrailerIndex(h), |h.entries|) >= 0
  }

  predicate CanAllocate(h: Header, n: nat) {
    && KnownFormats(h.entries) && TrailerHasItsSize(h) && Roomy(h, n)
    && (IndexOf(h.entries, TAG_RESERVED_SPACE) >= 0 ==> HasData(h))
  }

  predicate CanSet(h: Header, tag: u32, format: u32, payload: bytes) {
    var i := IndexOf(h.entries, tag);
    && tag != TAG_HEADER_SIGNATURES && KnownFormat(format) && CanAllocate(h, |payload|)
    && (i >= 0 ==> h.entries[i].format == format && HasData(h))
  }

  predicate CanDelete(h: Header, tag: u32) {
    tag != TAG_HEADER_SIGNATURES && KnownFormats(h.entries) && TrailerHasItsSize(h)
  }

  // ----- The allocator is never called more than once more

  // How many times the allocator can still call itself
  function Activations(h: Header, requestedSize: u32, format: u32): nat {
    if IndexOf(h.entries, TAG_RESERVED_SPACE) < 0 then 2
    else if AllocateOnce(h, requestedSize, format).done then 0 else 1
  }

  // No activation runs into the panic of isAtEndOfDataStore.
  predicate AllocatorReady(h: Header, requestedSize: u32, format: u32, grow: Growth) {
    && KnownFormats(h.entries) && TrailerHasItsSize(h) && requestedSize + 8206 < U32_LIMIT
    && var reserved := WithReservedSpace(h, requestedSize, format, grow);
       && HasData(reserved)
       && (!AllocateOnce(reserved, requestedSize, format).done ==>
             HasData(AllocateOnce(reserved, requestedSize, format).h))
  }

  lemma GrowingSuffices(h: Header, requestedSize: u32, format: u32)
    requires IndexOf(h.entries, TAG_RESERVED_SPACE) >= 0 && requestedSize + 8206 < U32_LIMIT
    requires !AllocateOnce(h, requestedSize, format).done
    ensures IndexOf(AllocateOnce(h, requestedSize, format).h.entries, TAG_RESERVED_SPACE) >= 0
    ensures AllocateOnce(AllocateOnce(h, requestedSize, format).h, requestedSize, format).done
  {
    StillReserved(h, requestedSize, format);
  }

  // What a single activation with reserved space amounts to
  lemma OneActivation(h: Header, requestedSize: u32, format: u32, grow: Growth)
    requires IndexOf(h.entries, TAG_RESERVED_SPACE) >= 0 && AllocatorReady(h, requestedSize, format, grow)
    ensures HasData(h)
    ensures AllocateOnce(h, requestedSize, format).done ==>
              Allocate(h, requestedSize, format, grow) == AllocateOnce(h, requestedSize, format)
    ensures Activations(h, requestedSize, format) == if AllocateOnce(h, requestedSize, format).done then 0 else 1
    ensures !SliceMoves(h)
  {
    hide AllocateOnce, HasData;
  }

  lemma GrowingIsReady(h: Header, requestedSize: u32, format: u32, grow: Growth)
    requires IndexOf(h.entries, TAG_RESERVED_SPACE) >= 0 && AllocatorReady(h, requestedSize, format, grow)
    requires !AllocateOnce(h, requestedSize, format).done
    ensures AllocatorReady(AllocateOnce(h, requestedSize, format).h, requestedSize, format, grow)
    ensures Activations(AllocateOnce(h, requestedSize, format).h, requestedSize, format) == 0
    ensures Allocate(AllocateOnce(h, requestedSize, format).h, requestedSize, format, grow)
         == Allocate(h, requestedSize, format, grow)
    ensures !SliceMoves(AllocateOnce(h, requestedSize, format).h)
  {
    hide AllocateOnce, HasData;
    OneAllocationKeeps(h, requestedSize, format);
    GrowingSuffices(h, requestedSize, format);
    OneAllocationKeepsTrailerSize(h, requestedSize, format);
  }

  // A fresh reservation satisfies the request it was made for.
  lemma ReservingSuffices(h: Header, requestedSize: u32, format: u32, grow: Growth)
    requires TrailerHasItsSize(h) && requestedSize + 8206 < U32_LIMIT
    requires IndexOf(h.entries, TAG_RESERVED_SPACE) < 0
    ensures AllocateOnce(WithReservedSpace(h, requestedSize, format, grow), requestedSize, format).done
  {
    hide CalcAlignmentByteCount, IsAtEnd, FindNextSuitablePayloadOffset, Insert, InsertionPoint;
    InsertKeeps(h, NewReservation(h, requestedSize, format), grow);
    InsertedIsFound(h, NewReservation(h, requestedSize, format), grow);
  }

  lemma ReservingIsReady(h: Header, requestedSize: u32, format: u32, grow: Growth)
    requires IndexOf(h.entries, TAG_RESERVED_SPACE) < 0 && AllocatorReady(h, requestedSize, format, grow)
    ensures KnownFormats(h.entries) && TrailerHasItsSize(h)
    ensures SliceMoves(h) <==> |h.entries| + 1 > h.capacity
    ensures Activations(h, requestedSize, format) == 2
    ensures WithReservedSpace(h, requestedSize, format, grow) ==
            Insert(h, NewReservation(h, requestedSize, format), grow)
    ensures !SliceMoves(WithReservedSpace(h, requestedSize, format, grow))
    ensures AllocatorReady(WithReservedSpace(h, requestedSize, format, grow), requestedSize, format, grow)
    ensures Activations(WithReservedSpace(h, requestedSize, format, grow), requestedSize, format) == 0
    ensures Allocate(WithReservedSpace(h, requestedSize, format, grow), requestedSize, format, grow)
         == Allocate(h, requestedSize, format, grow)
  {
    hide AllocateOnce, HasData, Insert, NewReservation;
    ReservingSuffices(h, requestedSize, format, grow);
    InsertKeepsTrailerSize(h, NewReservation(h, requestedSize, format), grow);
    InsertKeepsFormats(h, NewReservation(h, requestedSize, format), grow);
  }

  lemma EndOffsetIsInReach(h: Header, j: nat)
    requires j < |h.entries|
    ensures h.entries[j].EndOffset() <= h.entries[j].offset + |h.entries[j].payload| <= MaxEnd(Pieces(h.entries))
  {
    assert Pieces(h.entries)[j].End() <= MaxEnd(Pieces(h.entries));
  }

  lemma GrownHasData(h: Header, requestedSize: u32, format: u32)
    requires IndexOf(h.entries, TAG_RESERVED_SPACE) >= 0 && Roomy(h, requestedSize)
    requires !AllocateOnce(h, requestedSize, format).done
    ensures HasData(AllocateOnce(h, requestedSize, format).h)
  {
    hide CalcAlignmentByteCount, MaxEnd, Span, IsAtEnd, FindNextSuitablePayloadOffset, U32;
    var r := IndexOf(h.entries, TAG_RESERVED_SPACE);
    var after := AllocateOnce(h, requestedSize, format).h;
    StillReserved(h, requestedSize, format);
    EndOffsetIsInReach(h, r);
    var size := |after.entries[r].payload|;
    assert 0 < size <= requestedSize + 4103;
    assert after.entries[r].offset <= MaxEnd(Pieces(h.entries)) + size by {
      if !IsAtEnd(h, TAG_RESERVED_SPACE) {
        var grown := WithReservation(h, r, h.entries[r].offset, size);
        assert after.entries[r].offset == FindNextSuitablePayloadOffset(grown, FORMAT_BINARY);
        NextOffsetIsInReach(h, grown, r, size);
      }
    }
    assert after.entries[r].EndOffset() > 0;
  }

  lemma NextOffsetIsInReach(h: Header, grown: Header, r: nat, size: nat)
    requires r < |h.entries| && grown == WithReservation(h, r, h.entries[r].offset, size)
    requires MaxEnd(Pieces(h.entries)) + size < U32_LIMIT
    ensures FindNextSuitablePayloadOffset(grown, FORMAT_BINARY) <= MaxEnd(Pieces(h.entries)) + size
  {
    hide MaxEnd;
    var last := LastByOffset(grown.entries, TrailerIndex(grown), |grown.entries|);
    if last >= 0 {
      EndOffsetIsInReach(h, last);
    }
  }

  lemma ReservedHasData(h: Header, requestedSize: u32, format: u32, grow: Growth)
    requires IndexOf(h.entries, TAG_RESERVED_SPACE) < 0 && TrailerHasItsSize(h) && Roomy(h, requestedSize)
    ensures HasData(WithReservedSpace(h, requestedSize, format, grow))
  {
    var e := NewReservation(h, requestedSize, format);
    InsertHasData(h, e, grow);
  }

  lemma InsertHasData(h: Header, e: Entry, grow: Growth)
    requires e.tag == TAG_RESERVED_SPACE && e.payload != [] && TrailerHasItsSize(h)
    requires Span(h.entries, |h.entries|) + |e.payload| + 7 < U32_LIMIT
    ensures HasData(Insert(h, e, grow))
  {
    hide CalcAlignmentByteCount, EndOfFirst, MaxEnd, U32, LayoutOffset, LayoutSize, Insert, Span, LastByEnd;
    InsertKeepsSpan(h, e, grow);
    InsertKeeps(h, e, grow);
    var k, after := InsertionPoint(h.entries, e.tag), Insert(h, e, grow);
    assert Packed(after) && Fits(after.entries) by { InsertIsPacked(h, e, grow); }
    PackedEntryEnds(after, k);
    assert TrailerIndex(after) != k;
  }

  lemma InsertIsPacked(h: Header, e: Entry, grow: Growth)
    requires e.tag != TAG_HEADER_SIGNATURES && TrailerHasItsSize(h)
    requires Span(h.entries, |h.entries|) + |e.payload| + 7 < U32_LIMIT
    ensures Packed(Insert(h, e, grow)) && Fits(Insert(h, e, grow).entries)
  {
    hide UpdateTrailer, WithEntry, SyncLayout, Packed;
    InsertKeepsSpan(h, e, grow);
    InsertionKeepsTrailerSize(h, e, grow);
    SyncIsIdempotent(UpdateTrailer(WithEntry(h, e, grow)));
  }

  lemma PackedEntryEnds(h: Header, k: nat)
    requires Packed(h) && Fits(h.entries) && k < |h.entries| && h.entries[k].payload != []
    ensures h.entries[k].EndOffset() > 0
  {
    hide CalcAlignmentByteCount, EndOfFirst, LayoutOffset, LayoutSize, Fits;
    PlacedInStore(h.entries, TrailerIndex(h), k);
    assert SyncLayout(h).entries[k] == h.entries[k];
  }

  lemma InsertKeepsSpan(h: Header, e: Entry, grow: Growth)
    requires e.tag != TAG_HEADER_SIGNATURES && TrailerHasItsSize(h)
    ensures var after := Insert(h, e, grow).entries;
            Span(after, |after|) == Span(h.entries, |h.entries|) + |e.payload| + 7
  {
    InsertKeeps(h, e, grow);
    var after := Insert(h, e, grow).entries;
    SpanOfOneMore(h.entries, after, InsertionPoint(h.entries, e.tag), |after|);
  }

  lemma RoomyIsReady(h: Header, requestedSize: u32, format: u32, grow: Growth)
    requires CanAllocate(h, requestedSize)
    ensures AllocatorReady(h, requestedSize, format, grow)
  {
    hide AllocateOnce, HasData, Insert, NewReservation;
    if IndexOf(h.entries, TAG_RESERVED_SPACE) < 0 {
      ReservedHasData(h, requestedSize, format, grow);
      ReservingSuffices(h, requestedSize, format, grow);
    } else if !AllocateOnce(h, requestedSize, format).done {
      GrownHasData(h, requestedSize, format);
    }
  }
}
