// Where allocateSpaceInDatastore puts things, and how little the store changes for it.
module Allocator {
  import opened Bits
  import opened Utils
  import opened DynamicArrays
  import opened Headers
  import opened WireFormat
  import opened Layouts
  import opened Editing
  import opened HeaderMaps
  import opened EditorRuns
  import opened MapRuns

  // The data of the two entries does not overlap.
  predicate Apart(a: Entry, b: Entry) {
    a.offset + |a.payload| <= b.offset || b.offset + |b.payload| <= a.offset
  }

  // Any layout of disjoint data, whatever the order; the trailer does not count, it gives way.
  ghost predicate DisjointData(h: Header) {
    && HasPayloads(h.entries)
    && forall i, j :: 0 <= i < j < |h.entries| && i != TrailerIndex(h) && j != TrailerIndex(h) ==>
         Apart(h.entries[i], h.entries[j])
  }

  // n bytes at an address overlap the data of no entry but the trailer.
  ghost predicate IsFree(h: Header, address: nat, n: nat) {
    forall j :: 0 <= j < |h.entries| && j != TrailerIndex(h) ==>
      address + n <= h.entries[j].offset || h.entries[j].offset + |h.entries[j].payload| <= address
  }

  predicate InReach(h: Header, n: nat) {
    MaxEnd(Pieces(h.entries)) + 2 * (n + 8206) < U32_LIMIT
  }

  // There is at most one entry of reserved space.
  ghost predicate OneReservation(entries: seq<Entry>) {
    forall j :: 0 <= j < |entries| && entries[j].tag == TAG_RESERVED_SPACE ==>
      j == IndexOf(entries, TAG_RESERVED_SPACE)
  }

  lemma EndIsInReach(h: Header, j: nat)
    requires j < |h.entries|
    ensures h.entries[j].offset + |h.entries[j].payload| <= MaxEnd(Pieces(h.entries))
  {
    assert Pieces(h.entries)[j].End() <= MaxEnd(Pieces(h.entries));
  }

  // Everything but the reservation r is behind or in front of it.
  lemma NextToReservation(h: Header, j: nat)
    requires DisjointData(h) && HasReservation(h) && j < |h.entries|
    requires j != TrailerIndex(h) && j != IndexOf(h.entries, TAG_RESERVED_SPACE)
    ensures Apart(h.entries[j], Reservation(h)) && |h.entries[j].payload| > 0
  {
    var r := IndexOf(h.entries, TAG_RESERVED_SPACE);
    if j < r {
      assert Apart(h.entries[j], h.entries[r]);
    } else {
      assert Apart(h.entries[r], h.entries[j]);
    }
  }

  lemma TrailerStays(h: Header, n: u32, format: u32)
    requires HasReservation(h)
    ensures TrailerIndex(AllocateOnce(h, n, format).h) == TrailerIndex(h)
  {
    hide AllocateOnce;
    OneAllocationKeeps(h, n, format);
    IndexOfIs(AllocateOnce(h, n, format).h.entries, TrailerTag(h.isMain), TrailerIndex(h));
  }

  // The cases in which one activation serves the request
  lemma ServedIsFree(h: Header, n: u32, format: u32)
    requires DisjointData(h) && FairReservation(h) && n > 0
    requires Reservation(h).offset + n + 4200 < U32_LIMIT
    requires AllocateOnce(h, n, format).done
    ensures var once := AllocateOnce(h, n, format);
            OnBoundary(format, once.address) && IsFree(once.h, once.address, n)
  {
    hide CalcAlignmentByteCount, IsAtEnd, FindNextSuitablePayloadOffset, DisjointData, MaxEnd;
    var r, once, o := IndexOf(h.entries, TAG_RESERVED_SPACE), AllocateOnce(h, n, format), Reservation(h).offset;
    var a := CalcAlignmentByteCount(o, GetRequiredAlignment(format));
    TrailerStays(h, n, format);
    assert once.address == o + a && once.h.entries[r].offset == o + n + a;
    forall j | 0 <= j < |once.h.entries| && j != TrailerIndex(once.h)
      ensures once.address + n <= once.h.entries[j].offset
           || once.h.entries[j].offset + |once.h.entries[j].payload| <= once.address
    {
      if j != r {
        NextToReservation(h, j);
        assert once.h.entries[j] == h.entries[j];
      }
    }
  }

  // All data but the reservation r ends in front of it.
  ghost predicate BehindAll(h: Header, r: nat, offset: nat) {
    forall j :: 0 <= j < |h.entries| && j != TrailerIndex(h) && j != r ==>
      h.entries[j].offset + |h.entries[j].payload| <= offset
  }

  ghost predicate OnlyDiffersAt(h: Header, after: Header, r: nat) {
    && r < |h.entries| == |after.entries| && TrailerIndex(after) == TrailerIndex(h)
    && forall j :: 0 <= j < |h.entries| && j != r ==> after.entries[j] == h.entries[j]
  }

  lemma BehindAllIsDisjoint(h: Header, after: Header, r: nat)
    requires DisjointData(h) && OnlyDiffersAt(h, after, r) && BehindAll(h, r, after.entries[r].offset)
    requires after.entries[r].payload != []
    ensures DisjointData(after)
  {
    forall i, j | 0 <= i < j < |after.entries| && i != TrailerIndex(after) && j != TrailerIndex(after)
      ensures Apart(after.entries[i], after.entries[j])
    {
      if i != r && j != r {
        assert Apart(h.entries[i], h.entries[j]);
      }
    }
  }

  // A reservation at the end of the store can be enlarged in place.
  lemma EndIsBehindAll(h: Header)
    requires DisjointData(h) && FairReservation(h) && OneReservation(h.entries)
    requires MaxEnd(Pieces(h.entries)) < U32_LIMIT && IsAtEnd(h, TAG_RESERVED_SPACE)
    ensures BehindAll(h, IndexOf(h.entries, TAG_RESERVED_SPACE), Reservation(h).offset)
  {
    hide MaxEnd, DisjointData;
    var r := IndexOf(h.entries, TAG_RESERVED_SPACE);
    forall j | 0 <= j < |h.entries| && j != TrailerIndex(h) && j != r
      ensures h.entries[j].offset + |h.entries[j].payload| <= h.entries[r].offset
    {
      NextToReservation(h, j);
      EndIsInReach(h, j);
      EndIsInReach(h, r);
    }
  }

  // When the reservation does not end the store, the entry with the largest offset does.
  lemma OtherEntryIsLast(h: Header, grown: Header, r: nat) returns (m: nat)
    requires DisjointData(h) && FairReservation(h) && OneReservation(h.entries)
    requires r == IndexOf(h.entries, TAG_RESERVED_SPACE) && !IsAtEnd(h, TAG_RESERVED_SPACE)
    requires MaxEnd(Pieces(h.entries)) < U32_LIMIT
    requires OnlyDiffersAt(h, grown, r) && grown.entries[r].offset == h.entries[r].offset
    ensures m == LastByOffset(grown.entries, TrailerIndex(grown), |grown.entries|)
    ensures m != r && m < |h.entries|
    ensures BehindAll(h, r, h.entries[m].offset + |h.entries[m].payload|)
  {
    hide MaxEnd, DisjointData;
    var last := LastByEnd(h.entries, TrailerIndex(h), |h.entries|);
    EndIsInReach(h, r);
    assert h.entries[r].EndOffset() > 0;
    assert last >= 0 && last != r;
    EndIsInReach(h, last);
    NextToReservation(h, last);
    assert h.entries[last].offset > h.entries[r].offset;
    assert grown.entries[last] == h.entries[last];
    m := LastByOffset(grown.entries, TrailerIndex(grown), |grown.entries|);
    forall j | 0 <= j < |h.entries| && j != TrailerIndex(h) && j != r
      ensures h.entries[j].offset + |h.entries[j].payload| <= h.entries[m].offset + |h.entries[m].payload|
    {
      assert grown.entries[j] == h.entries[j];
      LargerOffsetEndsLater(h, j, m);
    }
  }

  lemma LargerOffsetEndsLater(h: Header, j: nat, m: nat)
    requires DisjointData(h) && j < |h.entries| && m < |h.entries|
    requires j != TrailerIndex(h) && m != TrailerIndex(h) && h.entries[j].offset <= h.entries[m].offset
    ensures h.entries[j].offset + |h.entries[j].payload| <= h.entries[m].offset + |h.entries[m].payload|
  {
    if j < m {
      assert Apart(h.entries[j], h.entries[m]);
    } else if m < j {
      assert Apart(h.entries[m], h.entries[j]);
    }
  }

  // Where an activation that could not serve the request leaves the reservation
  lemma UnservedReservation(h: Header, n: u32, format: u32, after: Header, r: nat)
    requires DisjointData(h) && FairReservation(h) && OneReservation(h.entries) && InReach(h, n)
    requires r == IndexOf(h.entries, TAG_RESERVED_SPACE)
    requires !AllocateOnce(h, n, format).done && after == AllocateOnce(h, n, format).h
    ensures OnlyDiffersAt(h, after, r) && after.entries[r].payload != []
    ensures BehindAll(h, r, after.entries[r].offset)
    ensures after.entries[r].offset <= MaxEnd(Pieces(h.entries))
  {
    hide CalcAlignmentByteCount, MaxEnd, AllocateOnce, DisjointData, IsAtEnd, BehindAll, FindNextSuitablePayloadOffset;
    hide OneReservation, FairReservation, IndexOf, LastByOffset;
    OneAllocationKeeps(h, n, format);
    TrailerStays(h, n, format);
    EndIsInReach(h, r);
    if IsAtEnd(h, TAG_RESERVED_SPACE) {
      OneAllocationLaw(h, n, format);
      StillReserved(h, n, format);
      EndIsBehindAll(h);
    } else {
      var grown := WithReservation(h, r, h.entries[r].offset, |after.entries[r].payload|);
      IndexOfIs(grown.entries, TrailerTag(h.isMain), TrailerIndex(h));
      var m := OtherEntryIsLast(h, grown, r);
      MovedOffset(h, n, format, after, grown, r);
      EndIsInReach(h, m);
      NextPlaceIs(grown, m);
      assert grown.entries[m] == h.entries[m];
    }
  }

  lemma NextPlaceIs(grown: Header, m: nat)
    requires m < |grown.entries| && m == LastByOffset(grown.entries, TrailerIndex(grown), |grown.entries|)
    requires grown.entries[m].offset + |grown.entries[m].payload| < U32_LIMIT
    ensures FindNextSuitablePayloadOffset(grown, FORMAT_BINARY) ==
            grown.entries[m].offset + |grown.entries[m].payload|
  {
  }

  lemma MovedOffset(h: Header, n: u32, format: u32, after: Header, grown: Header, r: nat)
    requires r == IndexOf(h.entries, TAG_RESERVED_SPACE) && r < |h.entries| == |after.entries|
    requires n + 8206 < U32_LIMIT
    requires !AllocateOnce(h, n, format).done && !IsAtEnd(h, TAG_RESERVED_SPACE)
    requires after == AllocateOnce(h, n, format).h
    requires grown == WithReservation(h, r, h.entries[r].offset, |after.entries[r].payload|)
    ensures after.entries[r].offset == FindNextSuitablePayloadOffset(grown, FORMAT_BINARY)
  {
    hide CalcAlignmentByteCount, IsAtEnd, FindNextSuitablePayloadOffset;
  }

  // With reserved space the allocated bytes are aligned and free, after one activation or two.
  lemma ReservedIsFree(h: Header, n: u32, format: u32, grow: Growth)
    requires TrailerHasItsSize(h) && DisjointData(h) && FairReservation(h) && OneReservation(h.entries)
    requires InReach(h, n) && n > 0
    ensures var allocation := Allocate(h, n, format, grow);
            && OnBoundary(format, allocation.address)
            && IsFree(allocation.h, allocation.address, n)
  {
    hide AllocateOnce, DisjointData, IsFree, IsAtEnd, MaxEnd, CalcAlignmentByteCount, BehindAll, OnlyDiffersAt;
    var r, once := IndexOf(h.entries, TAG_RESERVED_SPACE), AllocateOnce(h, n, format);
    if once.done {
      EndIsInReach(h, r);
      ServedIsFree(h, n, format);
    } else {
      OneAllocationLaw(h, n, format);
      StillReserved(h, n, format);
      GrowingSuffices(h, n, format);
      UnservedReservation(h, n, format, once.h, r);
      BehindAllIsDisjoint(h, once.h, r);
      ServedIsFree(once.h, n, format);
    }
  }

  // A header that was just laid out has disjoint data.
  lemma SyncedIsDisjoint(h: Header)
    requires Fits(h.entries) && HasPayloads(h.entries)
    ensures DisjointData(SyncLayout(h))
    ensures MaxEnd(Pieces(SyncLayout(h).entries)) <= Span(h.entries, |h.entries|)
  {
    hide CalcAlignmentByteCount, LayoutOffset, LayoutSize, EndOfFirst, MaxEnd;
    var after := SyncLayout(h);
    SyncKeepsTrailer(h);
    LaidOutIsLayout(h.entries, TrailerIndex(h));
    var offsets := Offsets(after.entries);
    forall i, j | 0 <= i < j < |after.entries| && i != TrailerIndex(after) && j != TrailerIndex(after)
      ensures Apart(after.entries[i], after.entries[j])
    {
      assert offsets[i] == after.entries[i].offset && offsets[j] == after.entries[j].offset;
    }
    SyncIsIdempotent(h);
    SpanOfSameLengths(h.entries, after.entries, |h.entries|);
    PackedEndsWithStore(after);
    SizeIsBounded(h.entries, TrailerIndex(h));
  }

  lemma SizeIsBounded(entries: seq<Entry>, trailer: int)
    requires -1 <= trailer < |entries| && Fits(entries)
    ensures LayoutSize(entries, trailer) <= Span(entries, |entries|)
  {
    hide CalcAlignmentByteCount;
    EndIsBounded(entries, trailer, |entries|);
    SpanMonotone(entries, trailer + 1, |entries|);
    if trailer >= 0 {
      TrailerStep(entries, trailer);
    }
  }

  // The allocator: from any layout of disjoint data with at most one reservation, and with at most
  // one call to itself, it returns an aligned address behind which the requested bytes overlap no
  // entry but the trailer; also not the reservation it shrank, moved or made.
  lemma AllocatedIsFree(h: Header, n: u32, format: u32, grow: Growth)
    requires CanAllocate(h, n) && n > 0
    requires DisjointData(h) && OneReservation(h.entries) && (HasReservation(h) ==> FairReservation(h))
    ensures var allocation := Allocate(h, n, format, grow);
            && allocation.done
            && OnBoundary(format, allocation.address)
            && IsFree(allocation.h, allocation.address, n)
  {
    hide AllocateOnce, DisjointData, IsFree, IsAtEnd, MaxEnd, CalcAlignmentByteCount, Insert, NewReservation, HasData;
    var reserved := WithReservedSpace(h, n, format, grow);
    if HasReservation(h) {
      ReservedIsFree(h, n, format, grow);
      if !AllocateOnce(h, n, format).done {
        GrowingSuffices(h, n, format);
      }
    } else {
      FreshIsReady(h, n, format, grow);
      ReservingSuffices(h, n, format, grow);
      ReservedIsFree(reserved, n, format, grow);
    }
  }

  lemma DisjointHasPayloads(h: Header)
    requires DisjointData(h)
    ensures HasPayloads(h.entries)
  {
  }

  lemma FreshIsReady(h: Header, n: u32, format: u32, grow: Growth)
    requires CanAllocate(h, n) && DisjointData(h) && OneReservation(h.entries) && !HasReservation(h)
    ensures var reserved := WithReservedSpace(h, n, format, grow);
            && TrailerHasItsSize(reserved) && DisjointData(reserved) && FairReservation(reserved)
            && OneReservation(reserved.entries) && InReach(reserved, n)
  {
    hide MaxEnd, CalcAlignmentByteCount, NewReservation, HasData, Insert, OneReservation, DisjointData;
    assert HasPayloads(h.entries) by { DisjointHasPayloads(h); }
    var e := NewReservation(h, n, format);
    InsertKeepsTrailerSize(h, e, grow);
    InsertItems(h, e, grow, TAG_RESERVED_SPACE);
    InsertedIsOnlyOne(h, e, grow);
    InsertIsDisjoint(h, e, grow);
  }

  lemma InsertedIsOnlyOne(h: Header, e: Entry, grow: Growth)
    requires TrailerHasItsSize(h) && e.tag == TAG_RESERVED_SPACE && !HasReservation(h)
    ensures OneReservation(Insert(h, e, grow).entries)
  {
    hide Insert;
    InsertKeeps(h, e, grow);
    InsertedIsFound(h, e, grow);
    var k, after := InsertionPoint(h.entries, e.tag), Insert(h, e, grow).entries;
    forall j | 0 <= j < |after| && j != k ensures after[j].tag != TAG_RESERVED_SPACE {
      assert after[j].tag == h.entries[if j < k then j else j - 1].tag;
    }
  }

  lemma InsertIsDisjoint(h: Header, e: Entry, grow: Growth)
    requires TrailerHasItsSize(h) && e.tag != TAG_HEADER_SIGNATURES
    requires HasPayloads(h.entries) && e.payload != []
    requires Span(h.entries, |h.entries|) + |e.payload| + 7 < U32_LIMIT
    ensures DisjointData(Insert(h, e, grow))
    ensures MaxEnd(Pieces(Insert(h, e, grow).entries)) <= Span(h.entries, |h.entries|) + |e.payload| + 7
  {
    hide MaxEnd, CalcAlignmentByteCount, UpdateTrailer, DisjointData, LayoutOffset, LayoutSize, Span, U32;
    InsertionKeepsTrailerSize(h, e, grow);
    InsertKeeps(h, e, grow);
    InsertKeepsSpan(h, e, grow);
    var with, after := UpdateTrailer(WithEntry(h, e, grow)), Insert(h, e, grow);
    SpanOfSameLengths(with.entries, after.entries, |after.entries|);
    assert HasPayloads(with.entries) by {
      assert forall j :: 0 <= j < |with.entries| ==> |with.entries[j].payload| == |after.entries[j].payload|;
    }
    SyncedIsDisjoint(with);
  }
}
