// Where syncDataStoreLayout puts the data of the index entries.
module Layouts {
  import opened Bits
  import opened Utils
  import opened Headers
  import opened WireFormat

  // The alignment of a type is the distance of the places for its data.
  lemma BoundaryIs(format: u32, offset: nat)
    ensures OnBoundary(format, offset) <==> offset % GetRequiredAlignment(format) == 0
    ensures ByteAligned(format) <==> GetRequiredAlignment(format) == 1
  {
  }

  // The padding of the source leads to the next such place.
  lemma PaddingLeadsThere(format: u32, end: nat, offset: nat)
    ensures offset == end + CalcAlignmentByteCount(end, GetRequiredAlignment(format)) <==>
              IsNextPlace(format, end, offset)
  {
    hide CalcAlignmentByteCount, OnBoundary, GetRequiredAlignment;
    var alignment := GetRequiredAlignment(format);
    var place := end + CalcAlignmentByteCount(end, alignment);
    BoundaryIs(format, place);
    forall earlier: nat | end <= earlier && OnBoundary(format, earlier) ensures place <= earlier {
      BoundaryIs(format, earlier);
      PaddingIsLeast(end, alignment, earlier - end);
    }
  }

  // The place of an entry whose predecessor ends at next
  function Place(e: Entry, next: u32): u32 {
    U32(next + CalcAlignmentByteCount(next, e.Alignment()))
  }

  // The offset behind the first n entries other than the trailer
  function EndOfFirst(entries: seq<Entry>, trailer: int, n: nat): u32
    requires n <= |entries|
  {
    if n == 0 then 0
    else if n - 1 == trailer then EndOfFirst(entries, trailer, n - 1)
    else U32(Place(entries[n - 1], EndOfFirst(entries, trailer, n - 1)) + U32(|entries[n - 1].payload|))
  }

  function LayoutOffset(entries: seq<Entry>, trailer: int, i: nat): u32
    requires i < |entries|
  {
    Place(entries[i], EndOfFirst(entries, trailer, if i == trailer then |entries| else i))
  }

  function LaidOut(entries: seq<Entry>, trailer: int): (laid: seq<Entry>)
    ensures |laid| == |entries|
  {
    seq(|entries|, i requires 0 <= i < |entries| => entries[i].(offset := LayoutOffset(entries, trailer, i)))
  }

  function LayoutSize(entries: seq<Entry>, trailer: int): u32
    requires -1 <= trailer < |entries|
  {
    if trailer < 0 then EndOfFirst(entries, trailer, |entries|)
    else U32(LayoutOffset(entries, trailer, trailer) + U32(|entries[trailer].payload|))
  }

  function SyncLayout(h: Header): Header {
    h.(entries := LaidOut(h.entries, TrailerIndex(h)), storeSize := LayoutSize(h.entries, TrailerIndex(h)))
  }

  lemma NothingPlaced(entries: seq<Entry>, trailer: int)
    ensures EndOfFirst(entries, trailer, 0) == 0
  {
  }

  // One turn of the loop over the entries
  lemma LayoutTurn(entries: seq<Entry>, trailer: int, i: nat)
    requires i < |entries|
    ensures EndOfFirst(entries, trailer, 0) == 0
    ensures i == trailer ==> EndOfFirst(entries, trailer, i + 1) == EndOfFirst(entries, trailer, i)
    ensures i != trailer ==>
              && LayoutOffset(entries, trailer, i) == Place(entries[i], EndOfFirst(entries, trailer, i))
              && EndOfFirst(entries, trailer, i + 1) ==
                 U32(LayoutOffset(entries, trailer, i) + U32(|entries[i].payload|))
  {
    hide CalcAlignmentByteCount;
  }

  lemma TrailerTurn(entries: seq<Entry>, trailer: int)
    requires 0 <= trailer < |entries|
    ensures LayoutOffset(entries, trailer, trailer) ==
            Place(entries[trailer], EndOfFirst(entries, trailer, |entries|))
  {
  }

  // All data with the largest padding any alignment asks for
  function Span(entries: seq<Entry>, n: nat): nat
    requires n <= |entries|
  {
    if n == 0 then 0 else Span(entries, n - 1) + |entries[n - 1].payload| + 7
  }

  // No 32-bit offset can overflow.
  predicate Fits(entries: seq<Entry>) {
    Span(entries, |entries|) < U32_LIMIT
  }

  lemma {:induction false} SpanMonotone(entries: seq<Entry>, m: nat, n: nat)
    requires m <= n <= |entries|
    ensures Span(entries, m) <= Span(entries, n)
    decreases n
  {
    if m < n {
      SpanMonotone(entries, m, n - 1);
    }
  }

  lemma {:induction false} SpanOfSameLengths(entries: seq<Entry>, others: seq<Entry>, n: nat)
    requires n <= |entries| == |others|
    requires forall i :: 0 <= i < |entries| ==> |entries[i].payload| == |others[i].payload|
    ensures Span(entries, n) == Span(others, n)
  {
    if n > 0 {
      SpanOfSameLengths(entries, others, n - 1);
    }
  }

  // after has one entry more than before, at index k
  lemma {:induction false} SpanOfOneMore(before: seq<Entry>, after: seq<Entry>, k: nat, n: nat)
    requires k <= |before| && |after| == |before| + 1 && n <= |after|
    requires forall i :: 0 <= i < k ==> |after[i].payload| == |before[i].payload|
    requires forall i :: k < i < |after| ==> |after[i].payload| == |before[i - 1].payload|
    ensures Span(after, n) == if n <= k then Span(before, n)
                              else Span(before, n - 1) + |after[k].payload| + 7
  {
    if n > 0 {
      SpanOfOneMore(before, after, k, n - 1);
    }
  }

  // What counts as a layout: aligned, in index order, with the trailer behind everything else
  ghost predicate IsLayout(entries: seq<Entry>, trailer: int, offsets: seq<nat>) {
    && |offsets| == |entries|
    && (forall i :: 0 <= i < |entries| ==> OnBoundary(entries[i].format, offsets[i]))
    && (forall i, j :: 0 <= i < j < |entries| && i != trailer && j != trailer ==>
          offsets[i] + |entries[i].payload| <= offsets[j])
    && (forall i :: 0 <= i < |entries| && 0 <= trailer < |entries| && i != trailer ==>
          offsets[i] + |entries[i].payload| <= offsets[trailer])
  }

  function Offsets(entries: seq<Entry>): (offsets: seq<nat>)
    ensures |offsets| == |entries|
  {
    seq(|entries|, i requires 0 <= i < |entries| => entries[i].offset)
  }

  // The space the first n entries take, the trailer possibly not among them
  function SpanWithout(entries: seq<Entry>, trailer: int, n: nat): (s: int)
    requires n <= |entries|
  {
    Span(entries, n) - if 0 <= trailer < n then |entries[trailer].payload| + 7 else 0
  }

  lemma {:induction false} EndIsBounded(entries: seq<Entry>, trailer: int, n: nat)
    requires n <= |entries| && Fits(entries)
    ensures EndOfFirst(entries, trailer, n) <= SpanWithout(entries, trailer, n)
  {
    if n > 0 {
      EndIsBounded(entries, trailer, n - 1);
      SpanMonotone(entries, n, |entries|);
      if n - 1 > trailer >= 0 {
        SpanMonotone(entries, trailer + 1, n - 1);
      }
    }
  }

  // Without overflow every step is exact.
  lemma EndStep(entries: seq<Entry>, trailer: int, n: nat)
    requires n < |entries| && Fits(entries) && n != trailer
    ensures LayoutOffset(entries, trailer, n) ==
            EndOfFirst(entries, trailer, n)
            + CalcAlignmentByteCount(EndOfFirst(entries, trailer, n), entries[n].Alignment())
    ensures EndOfFirst(entries, trailer, n + 1) == LayoutOffset(entries, trailer, n) + |entries[n].payload|
  {
    EndIsBounded(entries, trailer, n);
    SpanMonotone(entries, n + 1, |entries|);
    if n > trailer >= 0 {
      SpanMonotone(entries, trailer + 1, n);
    }
  }

  lemma TrailerStep(entries: seq<Entry>, trailer: int)
    requires 0 <= trailer < |entries| && Fits(entries)
    ensures LayoutOffset(entries, trailer, trailer) ==
            EndOfFirst(entries, trailer, |entries|)
            + CalcAlignmentByteCount(EndOfFirst(entries, trailer, |entries|), entries[trailer].Alignment())
    ensures LayoutSize(entries, trailer) == LayoutOffset(entries, trailer, trailer) + |entries[trailer].payload|
  {
    EndIsBounded(entries, trailer, |entries|);
    SpanMonotone(entries, trailer + 1, |entries|);
  }

  lemma {:induction false} EndMonotone(entries: seq<Entry>, trailer: int, m: nat, n: nat)
    requires m <= n <= |entries| && Fits(entries)
    ensures EndOfFirst(entries, trailer, m) <= EndOfFirst(entries, trailer, n)
    decreases n
  {
    hide CalcAlignmentByteCount, LayoutOffset, Fits, EndOfFirst;
    if m < n {
      LayoutTurn(entries, trailer, n - 1);
      EndMonotone(entries, trailer, m, n - 1);
      if n - 1 != trailer {
        EndStep(entries, trailer, n - 1);
      }
    }
  }

  lemma PlacedInFront(entries: seq<Entry>, trailer: int, i: nat, n: nat)
    requires i < n <= |entries| && i != trailer && Fits(entries)
    ensures LayoutOffset(entries, trailer, i) + |entries[i].payload| <= EndOfFirst(entries, trailer, n)
  {
    hide CalcAlignmentByteCount, LayoutOffset, Fits, EndOfFirst;
    EndStep(entries, trailer, i);
    EndMonotone(entries, trailer, i + 1, n);
  }

  lemma PlacedBehind(entries: seq<Entry>, trailer: int, i: nat)
    requires -1 <= trailer < |entries| && i < |entries| && Fits(entries)
    ensures OnBoundary(entries[i].format, LayoutOffset(entries, trailer, i))
    ensures LayoutOffset(entries, trailer, i) >= EndOfFirst(entries, trailer, if i == trailer then |entries| else i)
  {
    hide CalcAlignmentByteCount, LayoutOffset, LayoutSize, EndOfFirst, Fits, Span, OnBoundary;
    BoundaryIs(entries[i].format, LayoutOffset(entries, trailer, i));
    if i == trailer {
      TrailerStep(entries, trailer);
    } else {
      EndStep(entries, trailer, i);
    }
  }

  lemma PlacedInOrder(entries: seq<Entry>, trailer: int, i: nat, j: nat)
    requires -1 <= trailer < |entries| && Fits(entries)
    requires i < |entries| && j < |entries| && i != trailer && (i < j || j == trailer)
    ensures LayoutOffset(entries, trailer, i) + |entries[i].payload| <= LayoutOffset(entries, trailer, j)
  {
    PlacedInFront(entries, trailer, i, if j == trailer then |entries| else j);
    PlacedBehind(entries, trailer, j);
  }

  lemma PlacedInStore(entries: seq<Entry>, trailer: int, i: nat)
    requires -1 <= trailer < |entries| && i < |entries| && Fits(entries)
    ensures LayoutOffset(entries, trailer, i) + |entries[i].payload| <= LayoutSize(entries, trailer)
    ensures i == trailer ==>
              LayoutOffset(entries, trailer, i) + |entries[i].payload| == LayoutSize(entries, trailer)
  {
    if trailer >= 0 {
      TrailerStep(entries, trailer);
      if i != trailer {
        PlacedInOrder(entries, trailer, i, trailer);
      }
    } else {
      PlacedInFront(entries, trailer, i, |entries|);
    }
  }

  // The layout computed by the source is one.
  lemma LaidOutIsLayout(entries: seq<Entry>, trailer: int)
    requires -1 <= trailer < |entries| && Fits(entries)
    ensures IsLayout(entries, trailer, Offsets(LaidOut(entries, trailer)))
  {
    var offsets := Offsets(LaidOut(entries, trailer));
    forall i | 0 <= i < |entries|
      ensures offsets[i] == LayoutOffset(entries, trailer, i) && OnBoundary(entries[i].format, offsets[i])
    {
      PlacedBehind(entries, trailer, i);
    }
    forall i, j | 0 <= i < |entries| && 0 <= j < |entries| && i != trailer && (i < j || j == trailer)
      ensures offsets[i] + |entries[i].payload| <= offsets[j]
    {
      PlacedInOrder(entries, trailer, i, j);
    }
  }

  lemma NextPlaceIsLeast(entries: seq<Entry>, trailer: int, i: nat, offset: nat)
    requires -1 <= trailer < |entries| && i < |entries| && Fits(entries)
    requires EndOfFirst(entries, trailer, if i == trailer then |entries| else i) <= offset
    requires OnBoundary(entries[i].format, offset)
    ensures LayoutOffset(entries, trailer, i) <= offset
  {
    BoundaryIs(entries[i].format, offset);
    var end := EndOfFirst(entries, trailer, if i == trailer then |entries| else i);
    PaddingIsLeast(end, entries[i].Alignment(), offset - end);
    if i == trailer {
      TrailerStep(entries, trailer);
    } else {
      EndStep(entries, trailer, i);
    }
  }

  lemma {:induction false} EndIsLeast(entries: seq<Entry>, trailer: int, offsets: seq<nat>, n: nat, bound: nat)
    requires -1 <= trailer < |entries| && n <= |entries| && Fits(entries) && IsLayout(entries, trailer, offsets)
    requires forall i :: 0 <= i < n && i != trailer ==> offsets[i] + |entries[i].payload| <= bound
    ensures EndOfFirst(entries, trailer, n) <= bound
  {
    if n > 0 {
      var i := n - 1;
      if i == trailer {
        EndIsLeast(entries, trailer, offsets, i, bound);
      } else {
        EndIsLeast(entries, trailer, offsets, i, offsets[i]);
        NextPlaceIsLeast(entries, trailer, i, offsets[i]);
        EndStep(entries, trailer, i);
      }
    }
  }

  lemma OffsetIsLeast(entries: seq<Entry>, trailer: int, offsets: seq<nat>, i: nat)
    requires -1 <= trailer < |entries| && i < |entries| && Fits(entries) && IsLayout(entries, trailer, offsets)
    ensures LayoutOffset(entries, trailer, i) <= offsets[i]
  {
    EndIsLeast(entries, trailer, offsets, if i == trailer then |entries| else i, offsets[i]);
    NextPlaceIsLeast(entries, trailer, i, offsets[i]);
  }

  // No layout puts any entry at a smaller offset, or needs a smaller store.
  lemma LaidOutIsLeast(entries: seq<Entry>, trailer: int, offsets: seq<nat>, size: nat)
    requires -1 <= trailer < |entries| && Fits(entries) && IsLayout(entries, trailer, offsets)
    requires forall i :: 0 <= i < |entries| ==> offsets[i] + |entries[i].payload| <= size
    ensures forall i :: 0 <= i < |entries| ==> LayoutOffset(entries, trailer, i) <= offsets[i]
    ensures LayoutSize(entries, trailer) <= size
  {
    forall i | 0 <= i < |entries| ensures LayoutOffset(entries, trailer, i) <= offsets[i] {
      OffsetIsLeast(entries, trailer, offsets, i);
    }
    if trailer >= 0 {
      TrailerStep(entries, trailer);
    } else {
      EndIsLeast(entries, trailer, offsets, |entries|, size);
    }
  }

  // The layout depends on formats and payload lengths only.
  ghost predicate SameShape(entries: seq<Entry>, others: seq<Entry>) {
    && |entries| == |others|
    && forall i :: 0 <= i < |entries| ==>
         entries[i].format == others[i].format && |entries[i].payload| == |others[i].payload|
  }

  lemma {:induction false} SameShapeSameEnd(entries: seq<Entry>, others: seq<Entry>, trailer: int, n: nat)
    requires SameShape(entries, others) && n <= |entries|
    ensures EndOfFirst(entries, trailer, n) == EndOfFirst(others, trailer, n)
  {
    hide CalcAlignmentByteCount, U32;
    if n > 0 {
      SameShapeSameEnd(entries, others, trailer, n - 1);
    }
  }

  lemma SameShapeSameOffset(entries: seq<Entry>, others: seq<Entry>, trailer: int, i: nat)
    requires SameShape(entries, others) && i < |entries|
    ensures LayoutOffset(entries, trailer, i) == LayoutOffset(others, trailer, i)
  {
    hide CalcAlignmentByteCount, EndOfFirst;
    SameShapeSameEnd(entries, others, trailer, if i == trailer then |entries| else i);
  }

  lemma SameShapeSameLayout(entries: seq<Entry>, others: seq<Entry>, trailer: int)
    requires SameShape(entries, others) && -1 <= trailer < |entries|
    ensures forall i :: 0 <= i < |entries| ==>
              LayoutOffset(entries, trailer, i) == LayoutOffset(others, trailer, i)
    ensures LayoutSize(entries, trailer) == LayoutSize(others, trailer)
  {
    hide CalcAlignmentByteCount, EndOfFirst, LayoutOffset;
    forall i | 0 <= i < |entries|
      ensures LayoutOffset(entries, trailer, i) == LayoutOffset(others, trailer, i)
    {
      SameShapeSameOffset(entries, others, trailer, i);
    }
    SameShapeSameEnd(entries, others, trailer, |entries|);
  }

  // Laying out twice changes nothing, and neither does laying out what is packed already.
  predicate Packed(h: Header) {
    SyncLayout(h) == h
  }

  lemma SyncKeepsTrailer(h: Header)
    ensures TrailerIndex(SyncLayout(h)) == TrailerIndex(h)
  {
    IndexOfIs(SyncLayout(h).entries, TrailerTag(h.isMain), TrailerIndex(h));
  }

  // Where an entry was before does not matter.
  lemma SyncIgnoresOffset(h: Header, i: nat, offset: u32)
    requires i < |h.entries|
    ensures SyncLayout(h.(entries := h.entries[i := h.entries[i].(offset := offset)])) == SyncLayout(h)
  {
    hide CalcAlignmentByteCount, EndOfFirst, LayoutOffset, LayoutSize;
    var h' := h.(entries := h.entries[i := h.entries[i].(offset := offset)]);
    IndexOfIs(h'.entries, TrailerTag(h.isMain), TrailerIndex(h));
    SameShapeSameLayout(h.entries, h'.entries, TrailerIndex(h));
  }

  lemma SyncIsIdempotent(h: Header)
    ensures Packed(SyncLayout(h))
  {
    hide CalcAlignmentByteCount, EndOfFirst, LayoutOffset, LayoutSize;
    var once := SyncLayout(h);
    SyncKeepsTrailer(h);
    SameShapeSameLayout(h.entries, once.entries, TrailerIndex(h));
  }

  // The offsets are a layout, and no layout beats them anywhere.
  ghost predicate IsLeastLayout(entries: seq<Entry>, trailer: int) {
    && IsLayout(entries, trailer, Offsets(entries))
    && forall offsets, i :: IsLayout(entries, trailer, offsets) && 0 <= i < |entries| ==>
         entries[i].offset <= offsets[i]
  }

  // Where the data in front of entry n ends: that of the last entry before it, the trailer not
  // counted
  function EndBefore(entries: seq<Entry>, trailer: int, n: nat): nat
    requires n <= |entries|
  {
    if n == 0 then 0
    else if n - 1 == trailer then EndBefore(entries, trailer, n - 1)
    else entries[n - 1].offset + |entries[n - 1].payload|
  }

  // The entry is at the first place for its type that is not in front of end.
  ghost predicate Follows(e: Entry, end: nat) {
    IsNextPlace(e.format, end, e.offset)
  }

  // Every entry follows the one before it as closely as its alignment lets it, the trailer comes
  // last.
  ghost predicate IsTight(entries: seq<Entry>, trailer: int) {
    forall i :: 0 <= i < |entries| ==>
      Follows(entries[i], EndBefore(entries, trailer, if i == trailer then |entries| else i))
  }

  // The store ends with the data of the trailer, or else of the last entry.
  predicate StoreEndsWithData(h: Header) {
    var t := TrailerIndex(h);
    h.storeSize == if t >= 0 then h.entries[t].offset + |h.entries[t].payload| else EndBefore(h.entries, t, |h.entries|)
  }

  lemma FollowsIffPlaced(e: Entry, end: nat)
    ensures Follows(e, end) <==> e.offset == end + CalcAlignmentByteCount(end, e.Alignment())
  {
    PaddingLeadsThere(e.format, end, e.offset);
  }

  lemma NoEnd(entries: seq<Entry>, trailer: int)
    ensures EndOfFirst(entries, trailer, 0) == 0 && EndBefore(entries, trailer, 0) == 0
  {
  }

  lemma EndTurn(entries: seq<Entry>, trailer: int, i: nat)
    requires i < |entries|
    ensures EndBefore(entries, trailer, i + 1) ==
            if i == trailer then EndBefore(entries, trailer, i) else entries[i].offset + |entries[i].payload|
  {
  }

  lemma {:induction false} TightEnds(entries: seq<Entry>, trailer: int, n: nat)
    requires -1 <= trailer < |entries| && n <= |entries| && Fits(entries)
    requires forall i :: 0 <= i < n && i != trailer ==> Follows(entries[i], EndBefore(entries, trailer, i))
    ensures EndBefore(entries, trailer, n) == EndOfFirst(entries, trailer, n)
  {
    hide CalcAlignmentByteCount, Follows, LayoutOffset, Fits, EndOfFirst, EndBefore;
    NoEnd(entries, trailer);
    if n > 0 {
      TightEnds(entries, trailer, n - 1);
      EndTurn(entries, trailer, n - 1);
      LayoutTurn(entries, trailer, n - 1);
      if n - 1 != trailer {
        FollowsIffPlaced(entries[n - 1], EndOfFirst(entries, trailer, n - 1));
        EndStep(entries, trailer, n - 1);
      }
    }
  }

  lemma {:induction false} LaidOutEnds(entries: seq<Entry>, trailer: int, n: nat)
    requires -1 <= trailer < |entries| && n <= |entries| && Fits(entries) && LaidOut(entries, trailer) == entries
    ensures EndBefore(entries, trailer, n) == EndOfFirst(entries, trailer, n)
  {
    hide CalcAlignmentByteCount, LayoutOffset, Fits, EndOfFirst;
    NoEnd(entries, trailer);
    if n > 0 {
      LaidOutEnds(entries, trailer, n - 1);
      LayoutTurn(entries, trailer, n - 1);
      if n - 1 != trailer {
        assert LaidOut(entries, trailer)[n - 1] == entries[n - 1];
        EndStep(entries, trailer, n - 1);
      }
    }
  }

  lemma PlacedAt(entries: seq<Entry>, trailer: int, i: nat)
    requires -1 <= trailer < |entries| && i < |entries| && Fits(entries)
    ensures var end := EndOfFirst(entries, trailer, if i == trailer then |entries| else i);
            LayoutOffset(entries, trailer, i) == end + CalcAlignmentByteCount(end, entries[i].Alignment())
  {
    hide CalcAlignmentByteCount, EndOfFirst, LayoutOffset, Fits;
    if i == trailer {
      TrailerStep(entries, trailer);
    } else {
      EndStep(entries, trailer, i);
    }
  }

  lemma LaidOutIffTight(entries: seq<Entry>, trailer: int)
    requires -1 <= trailer < |entries| && Fits(entries)
    ensures LaidOut(entries, trailer) == entries <==> IsTight(entries, trailer)
  {
    hide CalcAlignmentByteCount, EndOfFirst, EndBefore, Follows, LayoutOffset, Fits;
    forall i | 0 <= i < |entries| && (LaidOut(entries, trailer) == entries || IsTight(entries, trailer))
      ensures var n := if i == trailer then |entries| else i;
              Follows(entries[i], EndBefore(entries, trailer, n)) <==>
              entries[i].offset == LayoutOffset(entries, trailer, i)
    {
      var n := if i == trailer then |entries| else i;
      if LaidOut(entries, trailer) == entries {
        LaidOutEnds(entries, trailer, n);
      } else {
        TightEnds(entries, trailer, n);
      }
      PlacedAt(entries, trailer, i);
      FollowsIffPlaced(entries[i], EndBefore(entries, trailer, n));
    }
    if IsTight(entries, trailer) {
      assert forall i :: 0 <= i < |entries| ==> LaidOut(entries, trailer)[i] == entries[i];
    }
    if LaidOut(entries, trailer) == entries {
      assert forall i :: 0 <= i < |entries| ==> LaidOut(entries, trailer)[i].offset == entries[i].offset;
    }
  }

  lemma LaidOutSize(h: Header)
    requires Fits(h.entries) && LaidOut(h.entries, TrailerIndex(h)) == h.entries
    ensures StoreEndsWithData(h) <==> h.storeSize == LayoutSize(h.entries, TrailerIndex(h))
  {
    hide CalcAlignmentByteCount, EndOfFirst, EndBefore, LayoutOffset, Fits;
    var t := TrailerIndex(h);
    if t >= 0 {
      assert LaidOut(h.entries, t)[t] == h.entries[t];
      TrailerStep(h.entries, t);
    } else {
      LaidOutEnds(h.entries, t, |h.entries|);
    }
  }

  // Laying out changes nothing exactly when every entry follows the one before it as closely as
  // its alignment lets it, and the store ends with the data.
  lemma PackedIffTight(h: Header)
    requires Fits(h.entries)
    ensures Packed(h) <==> IsTight(h.entries, TrailerIndex(h)) && StoreEndsWithData(h)
  {
    hide LaidOut, LayoutSize, Fits, IsTight, StoreEndsWithData;
    LaidOutIffTight(h.entries, TrailerIndex(h));
    if LaidOut(h.entries, TrailerIndex(h)) == h.entries {
      LaidOutSize(h);
    }
  }

  lemma LaidOutIffLeast(entries: seq<Entry>, trailer: int)
    requires -1 <= trailer < |entries| && Fits(entries)
    ensures LaidOut(entries, trailer) == entries <==> IsLeastLayout(entries, trailer)
  {
    hide CalcAlignmentByteCount, LayoutOffset, Fits;
    var laid := LaidOut(entries, trailer);
    LaidOutIsLayout(entries, trailer);
    if laid == entries {
      forall offsets, i | IsLayout(entries, trailer, offsets) && 0 <= i < |entries|
        ensures entries[i].offset <= offsets[i]
      {
        OffsetIsLeast(entries, trailer, offsets, i);
        assert laid[i] == entries[i];
      }
    }
    if IsLeastLayout(entries, trailer) {
      forall i | 0 <= i < |entries| ensures laid[i] == entries[i] {
        OffsetIsLeast(entries, trailer, Offsets(entries), i);
        assert entries[i].offset <= Offsets(laid)[i];
      }
    }
  }

  // A header is packed exactly when its offsets are a layout that no layout beats anywhere, and
  // its store ends with the data.
  lemma PackedIffLeast(h: Header)
    requires Fits(h.entries)
    ensures Packed(h) <==> IsLeastLayout(h.entries, TrailerIndex(h)) && StoreEndsWithData(h)
  {
    hide LaidOut, LayoutSize, Fits, IsLeastLayout, StoreEndsWithData;
    LaidOutIffLeast(h.entries, TrailerIndex(h));
    if LaidOut(h.entries, TrailerIndex(h)) == h.entries {
      LaidOutSize(h);
    }
  }

  // ----- the layout in numbers

  // Data at the offset is behind that of all entries that come before entry i: those in front of it in
  // the index, and for the trailer all others.
  ghost predicate IsBehind(entries: seq<Entry>, trailer: int, i: nat, offset: nat) {
    forall j :: 0 <= j < |entries| && j != trailer && (j < i || i == trailer) ==>
      entries[j].offset + |entries[j].payload| <= offset
  }

  // The first n entries end with one of them.
  lemma {:induction false} EndIsReached(entries: seq<Entry>, trailer: int, n: nat)
    requires -1 <= trailer < |entries| && n <= |entries| && Fits(entries)
    ensures var laid := LaidOut(entries, trailer);
            EndOfFirst(entries, trailer, n) == 0 ||
            exists j :: 0 <= j < n && j != trailer
                        && laid[j].offset + |laid[j].payload| == EndOfFirst(entries, trailer, n)
  {
    hide CalcAlignmentByteCount, LayoutOffset, Fits, EndOfFirst;
    if n == 0 {
      NothingPlaced(entries, trailer);
    } else {
      LayoutTurn(entries, trailer, n - 1);
      if n - 1 == trailer {
        EndIsReached(entries, trailer, n - 1);
      } else {
        EndStep(entries, trailer, n - 1);
        assert LaidOut(entries, trailer)[n - 1].offset == LayoutOffset(entries, trailer, n - 1);
      }
    }
  }

  lemma BehindIsBehindEnd(entries: seq<Entry>, trailer: int, i: nat, offset: nat)
    requires -1 <= trailer < |entries| && i < |entries| && Fits(entries)
    requires IsBehind(LaidOut(entries, trailer), trailer, i, offset)
    ensures EndOfFirst(entries, trailer, if i == trailer then |entries| else i) <= offset
  {
    hide LayoutOffset, Fits, EndOfFirst;
    EndIsReached(entries, trailer, if i == trailer then |entries| else i);
  }

  // Every entry is put at the least place for its type that is behind the data of those before it; the
  // trailer, the first entry with tag 62, or 63 in a main header, comes last.
  lemma PlacedInNumbers(h: Header, i: nat)
    requires i < |h.entries| && Fits(h.entries)
    ensures var after, trailer := SyncLayout(h).entries, IndexOf(h.entries, if h.isMain then 63 else 62);
            && |after| == |h.entries| && after[i] == h.entries[i].(offset := after[i].offset)
            && OnBoundary(h.entries[i].format, after[i].offset) && IsBehind(after, trailer, i, after[i].offset)
            && forall other: nat :: OnBoundary(h.entries[i].format, other) && IsBehind(after, trailer, i, other) ==>
                 after[i].offset <= other
  {
    hide LayoutOffset, LayoutSize, Fits, OnBoundary;
    var entries, after, trailer := h.entries, SyncLayout(h).entries, TrailerIndex(h);
    assert trailer == IndexOf(entries, if h.isMain then 63 else 62);
    PlacedBehind(entries, trailer, i);
    forall j | 0 <= j < |after| && j != trailer && (j < i || i == trailer)
      ensures after[j].offset + |after[j].payload| <= after[i].offset
    {
      PlacedInOrder(entries, trailer, j, i);
    }
    forall other: nat | OnBoundary(entries[i].format, other) && IsBehind(after, trailer, i, other)
      ensures after[i].offset <= other
    {
      BehindIsBehindEnd(entries, trailer, i, other);
      NextPlaceIsLeast(entries, trailer, i, other);
    }
  }

  // The store ends with the data.
  lemma StoreInNumbers(h: Header)
    requires Fits(h.entries)
    ensures var entries, size := SyncLayout(h).entries, SyncLayout(h).storeSize;
            && (forall j :: 0 <= j < |entries| ==> entries[j].offset + |entries[j].payload| <= size)
            && (size > 0 ==>
                  exists j :: 0 <= j < |entries| && entries[j].offset + |entries[j].payload| == size)
  {
    hide LayoutOffset, Fits, EndOfFirst;
    var t, after := TrailerIndex(h), SyncLayout(h);
    forall j | 0 <= j < |after.entries|
      ensures after.entries[j].offset + |after.entries[j].payload| <= after.storeSize
      ensures j == t ==> after.entries[j].offset + |after.entries[j].payload| == after.storeSize
    {
      PlacedInStore(h.entries, t, j);
    }
    EndIsReached(h.entries, t, |h.entries|);
    assert after.entries == LaidOut(h.entries, t);
    if t >= 0 {
      assert after.entries[t].offset + |after.entries[t].payload| == after.storeSize;
    }
  }
}
