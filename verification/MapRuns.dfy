// Runs of edits as runs of map updates, and the law of the reserved space.
module MapRuns {
  import opened Bits
  import opened Utils
  import opened DynamicArrays
  import opened Headers
  import opened WireFormat
  import opened Layouts
  import opened Editing
  import opened HeaderMaps
  import opened Multimaps
  import opened EditorRuns

  // ----- runs as map updates

  predicate GoesStale(h: Header, op: Op) {
    op.SetOp? && PointerGoesStale(h, op.tag, op.payload)
  }

  predicate NeverStale(h: Header, ops: seq<Op>, grow: Growth)
    requires CanRun(h, ops, grow)
    decreases |ops|
  {
    ops == [] || (!GoesStale(h, ops[0]) && NeverStale(Apply(h, ops[0], grow), ops[1..], grow))
  }

  function Updated(m: map<u32, Item>, op: Op): map<u32, Item> {
    match op
    case SetOp(tag, format, count, payload) => m[tag := Item(format, count, payload)]
    case DeleteOp(tag) => m - {tag}
  }

  function AllUpdated(m: map<u32, Item>, ops: seq<Op>): map<u32, Item>
    decreases |ops|
  {
    if ops == [] then m else AllUpdated(Updated(m, ops[0]), ops[1..])
  }

  ghost predicate Represents(h: Header, m: map<u32, Item>) {
    forall t: u32 :: t != TAG_RESERVED_SPACE ==> ItemOf(h, t) == if t in m then Some(m[t]) else None
  }

  lemma ApplyUpdates(h: Header, op: Op, grow: Growth, m: map<u32, Item>)
    requires Sound(h) && CanApply(h, op) && !GoesStale(h, op) && Represents(h, m)
    ensures Represents(Apply(h, op, grow), Updated(m, op))
  {
    hide SetOrAdd, Delete, ItemOf, HasData, Roomy, Intact, ItemsWith;
    match op
    case SetOp(tag, format, count, payload) => SetOrAddIsMapUpdate(h, tag, format, count, payload, grow);
    case DeleteOp(tag) =>
      AscendingOccursOnce(h.entries, tag);
      DeleteIsMapRemoval(h, tag);
  }

  // Any run without a stale write makes of the header what it makes of the map.
  lemma {:induction false} RunUpdates(h: Header, ops: seq<Op>, grow: Growth, m: map<u32, Item>)
    requires Sound(h) && |h.entries| < 0x1000_0000 && Represents(h, m)
    requires CanRun(h, ops, grow) && NeverStale(h, ops, grow)
    ensures Represents(Run(h, ops, grow), AllUpdated(m, ops))
    decreases |ops|
  {
    hide Sound, Apply, CanApply, Represents, Updated, GoesStale;
    if ops != [] {
      ApplyUpdates(h, ops[0], grow, m);
      ApplyIsSound(h, ops[0], grow);
      FewEntries(h, ops[0], grow);
      RunUpdates(Apply(h, ops[0], grow), ops[1..], grow, Updated(m, ops[0]));
    }
  }

  // ----- runs as updates of a multimap

  // What an operation makes of the items of the tag t
  function Edited(items: seq<Item>, op: Op, t: u32): seq<Item> {
    if op.tag != t then items
    else
      match op
      case SetOp(_, format, count, payload) => [Item(format, count, payload)] + Tail(items)
      case DeleteOp(_) => Tail(items)
  }

  function AllEdited(items: seq<Item>, ops: seq<Op>, t: u32): seq<Item>
    decreases |ops|
  {
    if ops == [] then items else AllEdited(Edited(items, ops[0], t), ops[1..], t)
  }

  lemma ApplyEdits(h: Header, op: Op, grow: Growth, t: u32)
    requires CanApply(h, op) && !GoesStale(h, op) && t != TAG_RESERVED_SPACE
    ensures ItemsWith(Apply(h, op, grow).entries, t) == Edited(ItemsWith(h.entries, t), op, t)
  {
    hide SetOrAdd, Delete, ItemsWith, HasData, Roomy, PointerGoesStale;
    match op
    case SetOp(tag, format, count, payload) => SetOrAddItemsWith(h, tag, format, count, payload, grow, t);
    case DeleteOp(tag) => DeleteItemsWith(h, tag, t);
  }

  // Whatever the tags and their order, any run without a stale write sets and removes the first
  // item of each tag in turn.
  lemma {:induction false} RunEdits(h: Header, ops: seq<Op>, grow: Growth, t: u32)
    requires CanRun(h, ops, grow) && NeverStale(h, ops, grow) && t != TAG_RESERVED_SPACE
    ensures ItemsWith(Run(h, ops, grow).entries, t) == AllEdited(ItemsWith(h.entries, t), ops, t)
    decreases |ops|
  {
    hide Apply, CanApply, ItemsWith, Edited, GoesStale;
    if ops != [] {
      ApplyEdits(h, ops[0], grow, t);
      RunEdits(Apply(h, ops[0], grow), ops[1..], grow, t);
    }
  }

  // ----- reserved space

  predicate HasReservation(h: Header) {
    IndexOf(h.entries, TAG_RESERVED_SPACE) >= 0
  }

  function Reservation(h: Header): Entry
    requires HasReservation(h)
  {
    h.entries[IndexOf(h.entries, TAG_RESERVED_SPACE)]
  }

  // What an operation makes of the reservation of a header that has one
  lemma SetOrAddReservation(h: Header, tag: u32, format: u32, count: u32, payload: bytes, grow: Growth)
    requires !OwnedByEditor(tag) && TrailerHasItsSize(h) && HasReservation(h)
    ensures HasReservation(SetOrAdd(h, tag, format, count, payload, grow))
    ensures var allocation := Allocate(h, U32(|payload|), format, grow);
            && HasReservation(allocation.h)
            && ItemAt(Reservation(SetOrAdd(h, tag, format, count, payload, grow))) ==
               if IndexOf(h.entries, tag) < 0 || NeedsAllocation(h, tag, payload)
               then ItemAt(Reservation(allocation.h)) else ItemAt(Reservation(h))
  {
    hide Allocate, Insert, SyncLayout, NeedsAllocation;
    AllocationKeepsTrailerSize(h, U32(|payload|), format, grow);
    AllocationReserves(h, U32(|payload|), format, grow);
    AllocationItems(h, U32(|payload|), format, grow, tag);
    var i, allocation := IndexOf(h.entries, tag), Allocate(h, U32(|payload|), format, grow);
    if i < 0 {
      InsertItems(allocation.h, Entry(tag, format, allocation.address, count, payload), grow, TAG_RESERVED_SPACE);
    } else {
      var reached := Allocated(h, tag, format, payload, grow);
      ContentsItems(reached, i, count, payload, TAG_RESERVED_SPACE);
      SyncItems(WithContents(reached, i, count, payload), TAG_RESERVED_SPACE);
      SyncItems(reached, TAG_RESERVED_SPACE);
    }
  }

  lemma DeleteReservation(h: Header, tag: u32)
    requires !OwnedByEditor(tag) && TrailerHasItsSize(h) && HasReservation(h)
    ensures HasReservation(Delete(h, tag))
    ensures ItemAt(Reservation(Delete(h, tag))) == ItemAt(Reservation(h))
  {
    hide Delete;
    DeleteItems(h, tag, TAG_RESERVED_SPACE);
  }

  // With reserved space in the header no pointer goes stale, in any run.
  lemma {:induction false} ReservationPreventsStale(h: Header, ops: seq<Op>, grow: Growth)
    requires CanRun(h, ops, grow) && HasReservation(h)
    ensures NeverStale(h, ops, grow) && HasReservation(Run(h, ops, grow))
    decreases |ops|
  {
    hide SetOrAdd, Delete;
    if ops != [] {
      ApplyKeepsReservation(h, ops[0], grow);
      ReservationPreventsStale(Apply(h, ops[0], grow), ops[1..], grow);
    }
  }

  lemma ApplyKeepsReservation(h: Header, op: Op, grow: Growth)
    requires CanApply(h, op) && HasReservation(h)
    ensures HasReservation(Apply(h, op, grow))
  {
    hide SetOrAdd, Delete, HasReservation, HasData, Roomy;
    match op
    case SetOp(tag, format, count, payload) => SetOrAddReservation(h, tag, format, count, payload, grow);
    case DeleteOp(tag) => DeleteReservation(h, tag);
  }

  // From a header with reserved space every run is a run of map updates.
  lemma RunFromReservation(h: Header, ops: seq<Op>, grow: Growth, m: map<u32, Item>)
    requires Sound(h) && |h.entries| < 0x1000_0000 && CanRun(h, ops, grow) && HasReservation(h)
    requires Represents(h, m)
    ensures Represents(Run(h, ops, grow), AllUpdated(m, ops))
  {
    ReservationPreventsStale(h, ops, grow);
    RunUpdates(h, ops, grow, m);
  }

  // A reservation appears with the first entry that is added.
  lemma AddingReserves(h: Header, tag: u32, format: u32, count: u32, payload: bytes, grow: Growth)
    requires !OwnedByEditor(tag) && TrailerHasItsSize(h) && IndexOf(h.entries, tag) < 0
    ensures HasReservation(SetOrAdd(h, tag, format, count, payload, grow))
  {
    hide Allocate, Insert;
    AllocationKeepsTrailerSize(h, U32(|payload|), format, grow);
    AllocationReserves(h, U32(|payload|), format, grow);
    AllocationItems(h, U32(|payload|), format, grow, tag);
    var allocation := Allocate(h, U32(|payload|), format, grow);
    InsertItems(allocation.h, Entry(tag, format, allocation.address, count, payload), grow, TAG_RESERVED_SPACE);
  }

  // ----- the size of the reserved space

  // The reservation does not claim more space than it has.
  predicate FairReservation(h: Header) {
    HasReservation(h) && Reservation(h).payload != [] && Reservation(h).count <= |Reservation(h).payload|
  }

  // What the editor leaves behind
  predicate GoodReservation(h: Header) {
    && HasReservation(h)
    && Reservation(h).format == FORMAT_BINARY
    && Reservation(h).count == |Reservation(h).payload| > 0
  }

  function PaddingAt(offset: u32, format: u32): nat {
    CalcAlignmentByteCount(offset, GetRequiredAlignment(format))
  }

  lemma PaddingInNumbers(offset: u32, format: u32)
    ensures IsNextPlace(format, offset, offset + PaddingAt(offset, format))
    ensures ByteAligned(format) ==> PaddingAt(offset, format) == 0
    ensures PaddingAt(offset, format) < 8
  {
    PaddingLeadsThere(format, offset, offset + PaddingAt(offset, format));
    BoundaryIs(format, offset);
  }

  // One activation: the request is taken off a reservation that is larger; one that is used up
  // exactly starts over, and one that is too small is made large enough.
  lemma OneAllocationLaw(h: Header, n: u32, format: u32)
    requires HasReservation(h) && n + 8206 < U32_LIMIT
    ensures var r, a := Reservation(h).count, PaddingAt(Reservation(h).offset, format);
            var once := AllocateOnce(h, n, format);
            && HasReservation(once.h)
            && Reservation(once.h).format == Reservation(h).format
            && Reservation(once.h).count == |Reservation(once.h).payload| > 0
            && (forall k :: 0 <= k < |Reservation(once.h).payload| ==> Reservation(once.h).payload[k] == 0)
            && Reservation(once.h).count == (if r > n + a then r - n - a else if r == n + a then 4096 else n + a + 4096)
            && (once.done <==> r >= n + a)
            && (once.done ==> once.address == U32(Reservation(h).offset + a)
                              && Reservation(once.h).offset == U32(Reservation(h).offset + a + n))
            && (!once.done && IsAtEnd(h, TAG_RESERVED_SPACE) ==> Reservation(once.h).offset == Reservation(h).offset)
  {
    hide IsAtEnd, FindNextSuitablePayloadOffset, CalcAlignmentByteCount;
    StillReserved(h, n, format);
  }

  lemma AllocationLaw(h: Header, n: u32, format: u32, grow: Growth)
    requires TrailerHasItsSize(h) && HasReservation(h) && n + 8206 < U32_LIMIT
    ensures var after := Allocate(h, n, format, grow).h;
            var r, a := Reservation(h).count, PaddingAt(Reservation(h).offset, format);
            && HasReservation(after)
            && Reservation(after).format == Reservation(h).format
            && Reservation(after).count == |Reservation(after).payload| > 0
            && (forall k :: 0 <= k < |Reservation(after).payload| ==> Reservation(after).payload[k] == 0)
            && (r > n + a ==> Reservation(after).count == r - n - a)
            && (r == n + a ==> Reservation(after).count == 4096)
            && (r < n + a ==>
                  var first := AllocateOnce(h, n, format).h;
                  && HasReservation(first)
                  && Reservation(after).count == 4096 + a - PaddingAt(Reservation(first).offset, format))
            && (r < n + a ==> 4089 <= Reservation(after).count <= 4103)
            && (r < n + a && (IsAtEnd(h, TAG_RESERVED_SPACE) || ByteAligned(format)) ==>
                  Reservation(after).count == 4096)
  {
    hide AllocateOnce, IsAtEnd, HasReservation, Reservation, PaddingAt;
    assert HasReservation(h) && IndexOf(h.entries, TAG_RESERVED_SPACE) >= 0 by { ReservationIndex(h); }
    OneAllocationLaw(h, n, format);
    PaddingInNumbers(Reservation(h).offset, format);
    var first := AllocateOnce(h, n, format);
    if !first.done {
      PaddingInNumbers(Reservation(first.h).offset, format);
      StillReserved(h, n, format);
      OneAllocationLaw(first.h, n, format);
    }
  }

  lemma ReservationIndex(h: Header)
    ensures HasReservation(h) <==> IndexOf(h.entries, TAG_RESERVED_SPACE) >= 0
  {
  }

  // A new reservation is as large as a fresh one after it has served its first request, give or take
  // the padding: it was sized for where the data ended, and serves from where it was laid out.
  lemma FirstAllocationLaw(h: Header, n: u32, format: u32, grow: Growth)
    requires TrailerHasItsSize(h) && !HasReservation(h) && n + 8206 < U32_LIMIT
    ensures var after, made := Allocate(h, n, format, grow).h, WithReservedSpace(h, n, format, grow);
            && GoodReservation(after) && HasReservation(made)
            && (forall k :: 0 <= k < |Reservation(after).payload| ==> Reservation(after).payload[k] == 0)
            && Reservation(after).count ==
               4096 + PaddingAt(FindNextSuitablePayloadOffset(h, FORMAT_BINARY), format)
               - PaddingAt(Reservation(made).offset, format)
            && 4089 <= Reservation(after).count <= 4103
            && (ByteAligned(format) ==> Reservation(after).count == 4096)
  {
    hide AllocateOnce, Insert, NewReservation, PaddingAt, FindNextSuitablePayloadOffset;
    var e, made := NewReservation(h, n, format), WithReservedSpace(h, n, format, grow);
    InsertItems(h, e, grow, TAG_RESERVED_SPACE);
    assert ItemAt(Reservation(made)) == ItemAt(e);
    NewReservationSize(h, n, format);
    PaddingInNumbers(FindNextSuitablePayloadOffset(h, FORMAT_BINARY), format);
    PaddingInNumbers(Reservation(made).offset, format);
    OneAllocationLaw(made, n, format);
  }

  lemma NewReservationSize(h: Header, n: u32, format: u32)
    requires n + 8206 < U32_LIMIT
    ensures NewReservation(h, n, format).count ==
            4096 + n + PaddingAt(FindNextSuitablePayloadOffset(h, FORMAT_BINARY), format)
  {
    hide FindNextSuitablePayloadOffset, CalcAlignmentByteCount;
  }

  lemma ApplyReservationLaw(h: Header, op: Op, grow: Growth)
    requires CanApply(h, op) && FairReservation(h)
    ensures FairReservation(Apply(h, op, grow))
    ensures Reservation(Apply(h, op, grow)).format == Reservation(h).format
    ensures GoodReservation(h) ==> GoodReservation(Apply(h, op, grow))
    ensures |Reservation(Apply(h, op, grow)).payload| <= Max(|Reservation(h).payload|, 4103)
  {
    hide SetOrAdd, Delete, Allocate, NeedsAllocation, CalcAlignmentByteCount, IsAtEnd, HasData;
    match op
    case SetOp(tag, format, count, payload) =>
      SetOrAddReservation(h, tag, format, count, payload, grow);
      AllocationLaw(h, |payload|, format, grow);
    case DeleteOp(tag) =>
      DeleteReservation(h, tag);
  }

  // Over every run the reserved space is never used up and never outgrows what it was or a fresh
  // one; and a reservation with its length as its count stays one.
  lemma {:induction false} RunReservationLaw(h: Header, ops: seq<Op>, grow: Growth)
    requires CanRun(h, ops, grow) && FairReservation(h)
    ensures FairReservation(Run(h, ops, grow))
    ensures Reservation(Run(h, ops, grow)).format == Reservation(h).format
    ensures GoodReservation(h) ==> GoodReservation(Run(h, ops, grow))
    ensures |Reservation(Run(h, ops, grow)).payload| <= Max(|Reservation(h).payload|, 4103)
    decreases |ops|
  {
    hide GoodReservation, CanApply, Apply;
    if ops != [] {
      ApplyReservationLaw(h, ops[0], grow);
      RunReservationLaw(Apply(h, ops[0], grow), ops[1..], grow);
    }
  }
}
