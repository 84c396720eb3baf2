// How much space edits take, and that it suffices over whole runs.
module Spaces {
  import opened Bits
  import opened DynamicArrays
  import opened Headers
  import opened Layouts
  import opened Editing
  import opened HeaderMaps
  import opened Multimaps
  import opened EditorRuns
  import opened MapRuns
  import opened Allocator

  // ----- how much space the edits take

  lemma {:induction false} SpanOfReplaced(before: seq<Entry>, after: seq<Entry>, k: nat, n: nat)
    requires k < |before| == |after| && n <= |before|
    requires forall i :: 0 <= i < |before| && i != k ==> |after[i].payload| == |before[i].payload|
    ensures Span(after, n) == Span(before, n) + if k < n then |after[k].payload| - |before[k].payload| else 0
  {
    if n > 0 {
      SpanOfReplaced(before, after, k, n - 1);
    }
  }

  // The space a header takes at most
  function Space(h: Header): nat {
    Span(h.entries, |h.entries|)
  }

  lemma SyncSpace(h: Header)
    ensures Space(SyncLayout(h)) == Space(h)
  {
    hide LayoutOffset, LayoutSize;
    SpanOfSameLengths(h.entries, SyncLayout(h).entries, |h.entries|);
  }

  lemma DeleteSpace(h: Header, tag: u32)
    requires CanDelete(h, tag)
    ensures Space(Delete(h, tag)) <= Space(h)
  {
    hide UpdateTrailer, SyncLayout, U32;
    var k := IndexOf(h.entries, tag);
    if k >= 0 {
      DeleteKeeps(h, tag);
      var after := Delete(h, tag).entries;
      SpanOfOneMore(after, h.entries, k, |h.entries|);
    }
  }

  lemma AllocationSpace(h: Header, n: u32, format: u32, grow: Growth)
    requires TrailerHasItsSize(h) && n + 8206 < U32_LIMIT && (HasReservation(h) ==> FairReservation(h))
    ensures Space(Allocate(h, n, format, grow).h) <= Space(h) + 4110
  {
    hide AllocateOnce, Insert, NewReservation, IsAtEnd, Span;
    var r, after := IndexOf(h.entries, TAG_RESERVED_SPACE), Allocate(h, n, format, grow).h;
    if r >= 0 {
      AllocationLaw(h, n, format, grow);
      AllocationReserves(h, n, format, grow);
      AllocationOnlyTouches(h, n, format, grow);
      SpanOfReplaced(h.entries, after.entries, r, |h.entries|);
    } else {
      var e, reserved := NewReservation(h, n, format), WithReservedSpace(h, n, format, grow);
      InsertKeepsSpan(h, e, grow);
      InsertItems(h, e, grow, TAG_RESERVED_SPACE);
      ReservingSuffices(h, n, format, grow);
      FirstAllocationLaw(h, n, format, grow);
      AllocationReserves(h, n, format, grow);
      OneAllocationKeeps(reserved, n, format);
      SpanOfReplaced(reserved.entries, after.entries, IndexOf(reserved.entries, TAG_RESERVED_SPACE), |after.entries|);
    }
  }

  lemma AllocationOnlyTouches(h: Header, n: u32, format: u32, grow: Growth)
    requires TrailerHasItsSize(h) && HasReservation(h)
    ensures var r, after := IndexOf(h.entries, TAG_RESERVED_SPACE), Allocate(h, n, format, grow).h;
            && |after.entries| == |h.entries|
            && forall j :: 0 <= j < |h.entries| && j != r ==> after.entries[j] == h.entries[j]
  {
    hide AllocateOnce;
    OneAllocationKeeps(h, n, format);
    StillReserved(h, n, format);
    OneAllocationKeeps(AllocateOnce(h, n, format).h, n, format);
  }

  lemma ContentsSpace(h: Header, i: nat, count: u32, payload: bytes)
    requires i < |h.entries|
    ensures Space(WithContents(h, i, count, payload)) <= Space(h) + |payload|
  {
    SpanOfReplaced(h.entries, WithContents(h, i, count, payload).entries, i, |h.entries|);
  }

  lemma SetOrAddSpace(h: Header, tag: u32, format: u32, count: u32, payload: bytes, grow: Growth)
    requires TrailerHasItsSize(h) && tag != TAG_HEADER_SIGNATURES
    requires |payload| + 8206 < U32_LIMIT && (HasReservation(h) ==> FairReservation(h))
    ensures Space(SetOrAdd(h, tag, format, count, payload, grow)) <= Space(h) + |payload| + 4117
  {
    hide Allocate, Insert, SyncLayout, NeedsAllocation, Space;
    AllocationKeepsTrailerSize(h, |payload|, format, grow);
    AllocationSpace(h, |payload|, format, grow);
    var i, allocation := IndexOf(h.entries, tag), Allocate(h, |payload|, format, grow);
    if i < 0 {
      InsertSpace(allocation.h, Entry(tag, format, allocation.address, count, payload), grow);
    } else {
      var reached := Allocated(h, tag, format, payload, grow);
      ContentsSpace(reached, i, count, payload);
      SyncSpace(WithContents(reached, i, count, payload));
      SyncSpace(reached);
    }
  }

  lemma InsertSpace(h: Header, e: Entry, grow: Growth)
    requires e.tag != TAG_HEADER_SIGNATURES && TrailerHasItsSize(h)
    ensures Space(Insert(h, e, grow)) == Space(h) + |e.payload| + 7
  {
    hide Insert;
    InsertKeepsSpan(h, e, grow);
  }

  lemma DeletedIsPacked(h: Header, tag: u32)
    requires CanDelete(h, tag) && IndexOf(h.entries, tag) >= 0
    ensures Packed(Delete(h, tag))
  {
    hide SyncLayout, UpdateTrailer;
    RemovalKeepsTrailerSize(h, IndexOf(h.entries, tag));
    SyncIsIdempotent(UpdateTrailer(RemoveAtIndex(h, IndexOf(h.entries, tag))));
  }

  lemma PackedMaxEnd(h: Header)
    requires Packed(h) && Space(h) < U32_LIMIT
    ensures MaxEnd(Pieces(h.entries)) <= Space(h)
  {
    hide MaxEnd, LayoutOffset, LayoutSize, LaidOut;
    PackedEndsWithStore(h);
    assert SyncLayout(h).storeSize == h.storeSize;
    SizeIsBounded(h.entries, TrailerIndex(h));
  }

  lemma SpaceFits(h: Header)
    requires Space(h) < U32_LIMIT
    ensures Fits(h.entries)
  {
  }

  // ----- whole runs

  // A pointer that goes stale while the reservation is made may hit it, if the tag sorts behind it.
  predicate SparesReservation(h: Header, op: Op) {
    op.SetOp? ==> op.tag < TAG_RESERVED_SPACE || op.count <= |op.payload| || IndexOf(h.entries, op.tag) < 0
  }

  // The reservation claims no more space than it has; and where there is none yet, no operation
  // can make it.
  predicate InCheck(h: Header, ops: seq<Op>) {
    if HasReservation(h) then FairReservation(h)
    else forall i :: 0 <= i < |ops| ==> SparesReservation(h, ops[i])
  }

  // A reservation that the editor had to make
  lemma MadeReservationIsFair(h: Header, tag: u32, format: u32, count: u32, payload: bytes, grow: Growth)
    requires !OwnedByEditor(tag) && !HasReservation(h) && CanSet(h, tag, format, payload)
    requires payload != [] && |payload| < U32_LIMIT && SparesReservation(h, SetOp(tag, format, count, payload))
    ensures var h' := SetOrAdd(h, tag, format, count, payload, grow);
            HasReservation(h') ==> FairReservation(h') && Reservation(h').format == FORMAT_BINARY
  {
    hide SetOrAdd, Allocate, HasData, CanAllocate, ItemAt, FairReservation;
    FitsInAWord(h, tag, format, payload);
    AllocationKeepsTrailerSize(h, |payload|, format, grow);
    FirstAllocationLaw(h, |payload|, format, grow);
    GoodIsFair(Allocate(h, |payload|, format, grow).h);
    if IndexOf(h.entries, tag) < 0 {
      AddingMakesFair(h, tag, format, count, payload, grow);
    } else {
      SettingMakesFair(h, tag, format, count, payload, grow);
    }
  }

  lemma GoodIsFair(h: Header)
    requires GoodReservation(h)
    ensures FairReservation(h) && Reservation(h).format == FORMAT_BINARY
  {
  }

  lemma AddingMakesFair(h: Header, tag: u32, format: u32, count: u32, payload: bytes, grow: Growth)
    requires !OwnedByEditor(tag) && TrailerHasItsSize(h) && IndexOf(h.entries, tag) < 0 && |payload| < U32_LIMIT
    requires var reached := Allocate(h, |payload|, format, grow).h;
             FairReservation(reached) && Reservation(reached).format == FORMAT_BINARY
    ensures var h' := SetOrAdd(h, tag, format, count, payload, grow);
            FairReservation(h') && Reservation(h').format == FORMAT_BINARY
  {
    hide Allocate, Insert, IndexOf;
    AllocationKeepsTrailerSize(h, |payload|, format, grow);
    AllocationItems(h, |payload|, format, grow, tag);
    var allocation := Allocate(h, |payload|, format, grow);
    InsertItems(allocation.h, Entry(tag, format, allocation.address, count, payload), grow, TAG_RESERVED_SPACE);
  }

  lemma SettingMakesFair(h: Header, tag: u32, format: u32, count: u32, payload: bytes, grow: Growth)
    requires !OwnedByEditor(tag) && TrailerHasItsSize(h) && !HasReservation(h) && IndexOf(h.entries, tag) >= 0
    requires payload != [] && |payload| < U32_LIMIT && SparesReservation(h, SetOp(tag, format, count, payload))
    requires var reached := Allocate(h, |payload|, format, grow).h;
             FairReservation(reached) && Reservation(reached).format == FORMAT_BINARY
    ensures var h' := SetOrAdd(h, tag, format, count, payload, grow);
            HasReservation(h') ==> FairReservation(h') && Reservation(h').format == FORMAT_BINARY
  {
    hide Allocate, SyncLayout, NeedsAllocation, IndexOf, InsertionPoint, Kept;
    var i, reached := IndexOf(h.entries, tag), Allocated(h, tag, format, payload, grow);
    AllocationKeepsTrailerSize(h, |payload|, format, grow);
    ReachedEntry(h, tag, format, payload, grow);
    ContentsItems(reached, i, count, payload, TAG_RESERVED_SPACE);
    SyncItems(WithContents(reached, i, count, payload), TAG_RESERVED_SPACE);
    SyncItems(reached, TAG_RESERVED_SPACE);
  }

  lemma StaysInCheck(h: Header, ops: seq<Op>, grow: Growth)
    requires ops != [] && CanApply(h, ops[0]) && InCheck(h, ops)
    ensures InCheck(Apply(h, ops[0], grow), ops[1..])
  {
    hide Apply, CanApply, HasReservation, FairReservation, SparesReservation;
    var after := Apply(h, ops[0], grow);
    if HasReservation(h) {
      ApplyReservationLaw(h, ops[0], grow);
      assert HasReservation(after) by { FairIsThere(after); }
    } else {
      assert SparesReservation(h, ops[0]);
      AfterSparing(h, ops[0], grow);
      forall i | 0 <= i < |ops[1..]| && !HasReservation(after) ensures SparesReservation(after, ops[1..][i]) {
        assert ops[1..][i] == ops[i + 1];
        StaysAbsent(h, ops[0], grow, ops[i + 1]);
      }
    }
  }

  lemma AfterSparing(h: Header, op: Op, grow: Growth)
    requires CanApply(h, op) && !HasReservation(h) && SparesReservation(h, op)
    ensures HasReservation(Apply(h, op, grow)) ==> FairReservation(Apply(h, op, grow))
  {
    hide SetOrAdd, Delete, HasReservation, FairReservation, HasData, CanAllocate, SparesReservation;
    match op
    case SetOp(tag, format, count, payload) =>
      FitsInAWord(h, tag, format, payload);
      MadeReservationIsFair(h, tag, format, count, payload, grow);
    case DeleteOp(tag) =>
      NoReservationAfterDelete(h, tag);
  }

  // A tag that is not there is not there after an operation either, unless that made a reservation.
  lemma StaysAbsent(h: Header, op: Op, grow: Growth, other: Op)
    requires CanApply(h, op) && !HasReservation(Apply(h, op, grow)) && SparesReservation(h, other)
    ensures SparesReservation(Apply(h, op, grow), other)
  {
    hide SetOrAdd, Delete, HasReservation, HasData, CanAllocate, ItemsWith, PointerGoesStale;
    FirstItem(h.entries, other.tag);
    FirstItem(Apply(h, op, grow).entries, other.tag);
    NoReservation(Apply(h, op, grow));
    match op
    case SetOp(tag, format, count, payload) =>
      FitsInAWord(h, tag, format, payload);
      if IndexOf(h.entries, tag) < 0 {
        AddingReserves(h, tag, format, count, payload, grow);
      } else if other.tag != TAG_RESERVED_SPACE {
        SetOrAddItemsWith(h, tag, format, count, payload, grow, other.tag);
      }
    case DeleteOp(tag) =>
      DeleteItemsWith(h, tag, other.tag);
  }

  lemma NoReservation(h: Header)
    requires !HasReservation(h)
    ensures IndexOf(h.entries, TAG_RESERVED_SPACE) < 0
  {
  }

  lemma FairIsThere(h: Header)
    requires FairReservation(h)
    ensures HasReservation(h)
  {
  }

  lemma FitsInAWord(h: Header, tag: u32, format: u32, payload: bytes)
    requires CanSet(h, tag, format, payload)
    ensures |payload| + 8206 < U32_LIMIT && TrailerHasItsSize(h)
    ensures Space(h) + 4 * (|payload| + 8206) < U32_LIMIT
  {
    hide HasData;
  }

  lemma NoReservationAfterDelete(h: Header, tag: u32)
    requires !OwnedByEditor(tag) && CanDelete(h, tag) && !HasReservation(h)
    ensures !HasReservation(Delete(h, tag))
  {
    hide Delete;
    DeleteItems(h, tag, TAG_RESERVED_SPACE);
  }

  // One operation in front of the end of the address space
  lemma ApplySpace(h: Header, op: Op, grow: Growth)
    requires CanApply(h, op) && (HasReservation(h) ==> FairReservation(h))
    ensures Space(Apply(h, op, grow)) <= Space(h) + if op.SetOp? then |op.payload| + 4117 else 0
    ensures op.SetOp? ==> Space(h) + 4 * (|op.payload| + 8206) < U32_LIMIT
  {
    hide SetOrAdd, Delete, HasReservation, FairReservation, Space, CanAllocate, HasData;
    match op
    case SetOp(tag, format, count, payload) =>
      FitsInAWord(h, tag, format, payload);
      SetOrAddSpace(h, tag, format, count, payload, grow);
    case DeleteOp(tag) =>
      DeleteSpace(h, tag);
  }

  lemma CheckedReservation(h: Header, ops: seq<Op>)
    requires InCheck(h, ops)
    ensures HasReservation(h) ==> FairReservation(h)
  {
  }

  // No run overflows: each operation checks the room it needs.
  lemma {:induction false} RunSpace(h: Header, ops: seq<Op>, grow: Growth)
    requires CanRun(h, ops, grow) && InCheck(h, ops) && Space(h) + 1 < U32_LIMIT
    ensures Space(Run(h, ops, grow)) + 1 < U32_LIMIT
    decreases |ops|
  {
    hide Apply, CanApply, InCheck, Space;
    if ops != [] {
      CheckedReservation(h, ops);
      StaysInCheck(h, ops, grow);
      ApplySpace(h, ops[0], grow);
      RunSpace(Apply(h, ops[0], grow), ops[1..], grow);
    }
  }

  // Over every run the header stays one that rpm accepts and that can be written without
  // overlaps: the consistency check of the tests, for all runs.
  lemma RunIsConsistent(h: Header, ops: seq<Op>, grow: Growth)
    requires Sound(h) && CanRun(h, ops, grow) && |h.entries| < 0x1000_0000
    requires Packed(h) || Touches(h, ops)
    requires InCheck(h, ops) && Space(h) + 1 < U32_LIMIT
    ensures Consistent(Run(h, ops, grow))
  {
    hide Sound, Consistent, Packed, Fits, Space, InCheck;
    RunIsSound(h, ops, grow);
    RunSpace(h, ops, grow);
    SpaceFits(Run(h, ops, grow));
    SettledIsConsistent(Run(h, ops, grow));
  }
}
