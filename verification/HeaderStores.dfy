// RpmHeader of common/rpmparser.go: the operations that edit a header in place. Each is proved
// to do what Editing says.
module HeaderStores {
  import opened Bits
  import opened Utils
  import opened Words
  import opened DynamicArrays
  import opened Headers
  import opened Layouts
  import opened Editing

  class RpmHeader {
    const isMainHeader: bool
    const magic: bytes
    const version: byte
    const reserved: bytes
    const grow: Growth
    var indexEntryCount: u32
    var storeSizeInBytes: u32
    var signedCount: Option<u32>
    // The slice of index entries. A pointer to an element is an index into it together with the
    // number of the backing array it was taken from.
    var entries: seq<Entry>
    var capacity: nat
    var backingArray: nat

    function Value(): Header
      reads this
    {
      Header(isMainHeader, magic, version, reserved, indexEntryCount, storeSizeInBytes, entries, capacity, signedCount)
    }

    constructor (h: Header, grow: Growth)
      ensures Value() == h && this.grow == grow
    {
      isMainHeader, magic, version, reserved := h.isMain, h.magic, h.version, h.reserved;
      this.grow := grow;
      indexEntryCount, storeSizeInBytes, signedCount := h.indexEntryCount, h.storeSize, h.signedCount;
      entries, capacity, backingArray := h.entries, h.capacity, 0;
    }

    method FindIndexEntry(tag: u32) returns (i: int)
      ensures i == IndexOf(entries, tag)
    {
      i := 0;
      while i < |entries|
        invariant 0 <= i <= |entries|
        invariant forall j :: 0 <= j < i ==> entries[j].tag != tag
      {
        if entries[i].tag == tag {
          IndexOfIs(entries, tag, i);
          return;
        }
        i := i + 1;
      }
      i := -1;
      IndexOfIs(entries, tag, i);
    }

    method RegionTrailerEntry() returns (i: int)
      ensures i == TrailerIndex(Value())
    {
      if isMainHeader {
        i := FindIndexEntry(TAG_HEADER_IMMUTABLE);
      } else {
        i := FindIndexEntry(TAG_HEADER_SIGNATURES);
      }
    }

    method SyncDataStoreLayout()
      requires KnownFormats(entries)
      modifies this`entries, this`storeSizeInBytes
      ensures Value() == SyncLayout(old(Value()))
    {
      hide CalcAlignmentByteCount, EndOfFirst, LayoutOffset;
      ghost var before := entries;
      var trailer := RegionTrailerEntry();
      var nextOffset: u32 := 0;
      assert EndOfFirst(before, trailer, 0) == 0 by {
        NothingPlaced(before, trailer);
      }
      var i := 0;
      while i < |entries|
        invariant 0 <= i <= |entries| == |before|
        invariant nextOffset == EndOfFirst(before, trailer, i)
        invariant forall j :: 0 <= j < |entries| ==>
                    entries[j] == if j < i && j != trailer
                                  then before[j].(offset := LayoutOffset(before, trailer, j)) else before[j]
      {
        LayoutTurn(before, trailer, i);
        if i != trailer {
          var place := Place(entries[i], nextOffset);
          nextOffset := U32(place + U32(|entries[i].payload|));
          entries := entries[i := entries[i].(offset := place)];
        }
        i := i + 1;
      }
      if trailer >= 0 {
        TrailerTurn(before, trailer);
        var place := Place(entries[trailer], nextOffset);
        nextOffset := U32(place + U32(|entries[trailer].payload|));
        entries := entries[trailer := entries[trailer].(offset := place)];
      }
      storeSizeInBytes := nextOffset;
      assert entries == LaidOut(before, trailer);
    }

    method UpdateSignedRegionTrailer()
      requires TrailerHasItsSize(Value())
      modifies this`entries, this`signedCount
      ensures Value() == UpdateTrailer(old(Value()))
    {
      hide WordBytes;
      if isMainHeader {
        return;
      }
      var trailer := FindIndexEntry(TAG_HEADER_SIGNATURES);
      if trailer < 0 {
        return;
      }
      var regionSize := U32(16 * |entries|);
      var negativeOffset := Negated(regionSize);
      var payload := entries[trailer].payload;
      var p: bytes := payload[8 := negativeOffset / 0x100_0000][9 := negativeOffset / 0x1_0000 % 0x100]
                             [10 := negativeOffset / 0x100 % 0x100][11 := negativeOffset % 0x100];
      FourBytesWritten(payload, p, negativeOffset);
      entries := entries[trailer := entries[trailer].(payload := p)];
      if signedCount.Some? {
        signedCount := Some(regionSize / 16);
      }
    }

    method IsAtEndOfDataStore(tag: u32) returns (atEnd: bool)
      requires HasData(Value())
      ensures atEnd == IsAtEnd(Value(), tag)
    {
      hide TrailerIndex, U32, LastByEnd, Entry.EndOffset;
      var trailer := RegionTrailerEntry();
      var largestEndOffset: u32 := 0;
      var lastIdx := -1;
      assert LastByEnd(entries, trailer, 0) == -1;
      for i := 0 to |entries|
        invariant lastIdx == LastByEnd(entries, trailer, i)
        invariant largestEndOffset == if lastIdx < 0 then 0 else entries[lastIdx].EndOffset()
      {
        LastByEndTurn(entries, trailer, i);
        if i != trailer && entries[i].EndOffset() > largestEndOffset {
          largestEndOffset := entries[i].EndOffset();
          lastIdx := i;
        }
      }
      atEnd := entries[lastIdx].tag == tag;
    }

    method FindNextSuitableOffset(format: u32) returns (payloadOffset: u32)
      requires KnownFormat(format)
      ensures payloadOffset == FindNextSuitablePayloadOffset(Value(), format)
    {
      var trailer := RegionTrailerEntry();
      var last := -1;
      for i := 0 to |entries|
        invariant last == LastByOffset(entries, trailer, i)
      {
        if i != trailer && (last < 0 || entries[i].offset > entries[last].offset) {
          last := i;
        }
      }
      payloadOffset := 0;
      if last >= 0 {
        payloadOffset := U32(entries[last].offset + U32(|entries[last].payload|));
        var alignment := CalcAlignmentByteCount(payloadOffset, GetRequiredAlignment(format));
        payloadOffset := U32(payloadOffset + alignment);
      }
    }

    // slices.Insert moves the slice when its capacity is used up.
    method SliceInsert(i: nat, e: Entry)
      requires i <= |entries|
      modifies this`entries, this`capacity, this`backingArray
      ensures entries == InsertAt(old(entries), i, e)
      ensures capacity == if |entries| <= old(capacity) then old(capacity) else Max(|entries|, grow(|entries|))
      ensures backingArray == old(backingArray) <==> |entries| <= old(capacity)
    {
      entries := InsertAt(entries, i, e);
      if |entries| > capacity {
        capacity := Max(|entries|, grow(|entries|));
        backingArray := backingArray + 1;
      }
    }

    method InsertIndexEntry(e: Entry)
      requires e.tag != TAG_HEADER_SIGNATURES && TrailerHasItsSize(Value())
      requires KnownFormats(entries) && KnownFormat(e.format)
      modifies this
      ensures Value() == Insert(old(Value()), e, grow)
      ensures backingArray == old(backingArray) <==> |old(entries)| + 1 <= old(capacity)
    {
      hide UpdateTrailer, SyncLayout, TrailerHasItsSize, IndexOf, KnownFormats, U32;
      ghost var before := Value();
      var insertAt := 0;
      while insertAt < |entries| && entries[insertAt].tag <= e.tag
        invariant insertAt <= |entries|
        invariant forall j :: 0 <= j < insertAt ==> entries[j].tag <= e.tag
      {
        insertAt := insertAt + 1;
      }
      InsertionPointIs(entries, e.tag, insertAt);
      SliceInsert(insertAt, e);
      indexEntryCount := U32(indexEntryCount + 1);
      assert Value() == WithEntry(before, e, grow);
      InsertionKeepsTrailerSize(before, e, grow);
      InsertingKeepsFormats(before, e, grow);
      TrailerUpdateKeepsFormats(Value());
      UpdateSignedRegionTrailer();
      SyncDataStoreLayout();
    }

    method AllocateSpaceInDatastore(requestedSize: u32, format: u32) returns (address: u32)
      requires KnownFormat(format) && AllocatorReady(Value(), requestedSize, format, grow)
      modifies this
      ensures Value() == Allocate(old(Value()), requestedSize, format, grow).h
      ensures address == Allocate(old(Value()), requestedSize, format, grow).address
      ensures backingArray == old(backingArray) <==> !SliceMoves(old(Value()))
      decreases Activations(Value(), requestedSize, format)
    {
      hide Allocate, AllocatorReady, Activations, HasData, SliceMoves, Insert, WithReservedSpace, IndexOf;
      hide IsAtEnd, FindNextSuitablePayloadOffset, CalcAlignmentByteCount, KnownFormats, TrailerHasItsSize, U32;
      ghost var before := Value();
      var r := FindIndexEntry(TAG_RESERVED_SPACE);
      if r >= 0 {
        OneActivation(before, requestedSize, format, grow);
        var atEnd := IsAtEndOfDataStore(TAG_RESERVED_SPACE);
        address := entries[r].offset;
        var alignment := CalcAlignmentByteCount(address, GetRequiredAlignment(format));
        address := U32(address + alignment);
        var actualSize := U32(requestedSize + alignment);
        var remaining := entries[r].count - actualSize;
        if remaining > 0 {
          entries := entries[r := entries[r].(offset := U32(entries[r].offset + actualSize),
                                              count := U32(remaining), payload := Zeros(remaining))];
          return;
        }
        if remaining == 0 {
          remaining := RESERVED_SPACE_ALLOCATION_SIZE;
          entries := entries[r := entries[r].(offset := U32(entries[r].offset + actualSize),
                                              count := U32(remaining), payload := Zeros(remaining))];
          return;
        }
        remaining := actualSize + RESERVED_SPACE_ALLOCATION_SIZE;
        entries := entries[r := entries[r].(count := U32(remaining), payload := Zeros(remaining))];
        if !atEnd {
          var offset := FindNextSuitableOffset(FORMAT_BINARY);
          entries := entries[r := entries[r].(offset := offset)];
        }
        assert Value() == AllocateOnce(before, requestedSize, format).h;
        GrowingIsReady(before, requestedSize, format, grow);
        address := AllocateSpaceInDatastore(requestedSize, format);
        return;
      }
      var start := FindNextSuitableOffset(FORMAT_BINARY);
      var payloadAlignment := CalcAlignmentByteCount(start, GetRequiredAlignment(format));
      var reservedSize := U32(RESERVED_SPACE_ALLOCATION_SIZE + requestedSize + payloadAlignment);
      var reservedSpace := Entry(TAG_RESERVED_SPACE, FORMAT_BINARY, start, reservedSize, Zeros(reservedSize));
      ReservingIsReady(before, requestedSize, format, grow);
      InsertIndexEntry(reservedSpace);
      address := AllocateSpaceInDatastore(requestedSize, format);
    }

    method AddIndexEntry(e: Entry)
      requires e.tag != TAG_HEADER_SIGNATURES && KnownFormat(e.format) && |e.payload| < U32_LIMIT
      requires AllocatorReady(Value(), |e.payload|, e.format, grow)
      modifies this
      ensures var allocation := Allocate(old(Value()), |e.payload|, e.format, grow);
              TrailerHasItsSize(allocation.h)
              && Value() == Insert(allocation.h, e.(offset := allocation.address), grow)
    {
      AllocationKeepsTrailerSize(Value(), |e.payload|, e.format, grow);
      AllocationKeepsFormats(Value(), |e.payload|, e.format, grow);
      var offset := AllocateSpaceInDatastore(|e.payload|, e.format);
      InsertIndexEntry(e.(offset := offset));
    }

    method SetOrAddIndexEntry(tag: u32, format: u32, newDataItemCnt: u32, newPayload: bytes)
      requires CanSet(Value(), tag, format, newPayload) && |newPayload| < U32_LIMIT
      modifies this
      ensures Value() == SetOrAdd(old(Value()), tag, format, newDataItemCnt, newPayload, grow)
    {
      hide Allocate, AllocatorReady, HasData, SliceMoves, Insert, SyncLayout, IsAtEnd, Roomy;
      hide TrailerHasItsSize;
      ghost var before := Value();
      RoomyIsReady(before, |newPayload|, format, grow);
      AllocationKeepsFormats(before, |newPayload|, format, grow);
      AllocationKeepsTrailerSize(before, |newPayload|, format, grow);
      var arrayPointedTo := backingArray;
      var existing := FindIndexEntry(tag);
      if existing >= 0 {
        var needsMoreSpace := |newPayload| > |entries[existing].payload|;
        var atEndOfDataStore := IsAtEndOfDataStore(tag);
        var newOffset := entries[existing].offset;
        if needsMoreSpace && !atEndOfDataStore {
          newOffset := AllocateSpaceInDatastore(|newPayload|, format);
        }
        // the write goes through the pointer taken above, possibly into an abandoned array
        if arrayPointedTo == backingArray {
          var e := entries[existing];
          entries := entries[existing := e.(offset := newOffset, count := newDataItemCnt, payload := newPayload)];
          ghost var reached := Allocated(before, tag, format, newPayload, grow);
          ghost var written := WithContents(reached, existing, newDataItemCnt, newPayload);
          assert Value().entries == written.entries[existing := written.entries[existing].(offset := newOffset)];
          SyncIgnoresOffset(written, existing, newOffset);
        }
        SyncDataStoreLayout();
        return;
      }
      AddIndexEntry(Entry(tag, format, 0, newDataItemCnt, newPayload));
    }

    method DeleteIndexEntryIfExists(tag: u32)
      requires CanDelete(Value(), tag)
      modifies this
      ensures Value() == Delete(old(Value()), tag)
    {
      hide SyncLayout, U32;
      ghost var before := Value();
      var i := FindIndexEntry(tag);
      if i >= 0 {
        RemovalKeepsTrailerSize(Value(), i);
        entries := entries[..i] + entries[i + 1..];
        indexEntryCount := U32(indexEntryCount - 1);
        assert Value() == RemoveAtIndex(before, i);
        UpdateSignedRegionTrailer();
        SyncDataStoreLayout();
      }
    }
  }

  lemma LastByEndTurn(entries: seq<Entry>, trailer: int, i: nat)
    requires i < |entries|
    ensures var last := LastByEnd(entries, trailer, i);
            LastByEnd(entries, trailer, i + 1) ==
            if i != trailer && entries[i].EndOffset() > (if last < 0 then 0 else entries[last].EndOffset())
            then i else last
  {
  }

  lemma InsertingKeepsFormats(h: Header, e: Entry, grow: Growth)
    requires KnownFormats(h.entries) && KnownFormat(e.format)
    ensures KnownFormats(WithEntry(h, e, grow).entries)
  {
  }

  lemma FourBytesWritten(payload: bytes, p: bytes, w: u32)
    requires |payload| == 16
    requires p == payload[8 := w / 0x100_0000][9 := w / 0x1_0000 % 0x100]
                         [10 := w / 0x100 % 0x100][11 := w % 0x100]
    ensures p == payload[..8] + WordBytes(w) + payload[12..]
  {
    hide WordBytes;
    WordBytesAre(w);
  }
}
