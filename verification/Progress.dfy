// When edits and signings cannot panic or overflow: conditions on the header at hand.
module Progress {
  import opened Bits
  import opened DynamicArrays
  import opened Headers
  import opened Layouts
  import opened Editing
  import opened HeaderMaps
  import opened Multimaps
  import opened EditorRuns
  import opened MapRuns
  import opened Allocator
  import opened Spaces
  import opened Signing
  import opened SigningRuns

  lemma EntryGivesData(h: Header, tag: u32)
    requires HasPayloads(h.entries) && MaxEnd(Pieces(h.entries)) < U32_LIMIT
    requires IndexOf(h.entries, tag) >= 0 && tag != TrailerTag(h.isMain)
    ensures HasData(h)
  {
    hide MaxEnd;
    EndIsInReach(h, IndexOf(h.entries, tag));
    assert h.entries[IndexOf(h.entries, tag)].EndOffset() > 0;
  }

  // A header with room can be edited: the only thing left to get wrong is the format.
  lemma SettingNeverPanics(h: Header, tag: u32, format: u32, payload: bytes)
    requires Framed(h) && TrailerHasItsSize(h) && Roomy(h, |payload|) && !OwnedByEditor(tag) && KnownFormat(format)
    requires IndexOf(h.entries, tag) >= 0 ==> h.entries[IndexOf(h.entries, tag)].format == format
    ensures CanSet(h, tag, format, payload)
  {
    hide HasData, MaxEnd, Span;
    if IndexOf(h.entries, tag) >= 0 {
      EntryGivesData(h, tag);
    }
    if IndexOf(h.entries, TAG_RESERVED_SPACE) >= 0 {
      EntryGivesData(h, TAG_RESERVED_SPACE);
    }
  }

  lemma DeletingNeverPanics(h: Header, tag: u32)
    requires Framed(h) && TrailerHasItsSize(h) && !OwnedByEditor(tag)
    ensures CanDelete(h, tag)
  {
  }

  // ----- signing

  // Room for a signature of n bytes, even after the header was laid out anew
  predicate Spacious(h: Header, n: nat) {
    && MaxEnd(Pieces(h.entries)) + 2 * Space(h) + 4 * (n + 8206) < U32_LIMIT
    && |h.entries| + 2 < 0x1000_0000
  }

  // There is room for a signature of n bytes, and none of another type in its place.
  predicate ReadyForSignature(h: Header, keyType: KeyType, n: nat) {
    && !keyType.OtherKey? && Spacious(h, n)
    && var i := IndexOf(h.entries, SignatureTag(keyType));
       i >= 0 ==> h.entries[i].format == FORMAT_BINARY
  }

  // Deletions in sequence: the space shrinks, and the data ends either where it did or in it.
  lemma {:induction false} DeletionsKeepRoom(h: Header, ops: seq<Op>, grow: Growth, end: nat, space: nat)
    requires Framed(h) && TrailerHasItsSize(h) && |h.entries| < 0x1000_0000 && DeletionsOnly(ops)
    requires forall i :: 0 <= i < |ops| ==> !OwnedByEditor(ops[i].tag)
    requires Space(h) <= space && MaxEnd(Pieces(h.entries)) <= end && space <= end && end < U32_LIMIT
    ensures CanRun(h, ops, grow)
    ensures var h' := Run(h, ops, grow);
            && Framed(h') && TrailerHasItsSize(h') && |h'.entries| <= |h.entries|
            && Space(h') <= space && MaxEnd(Pieces(h'.entries)) <= end
    decreases |ops|
  {
    hide Framed, TrailerHasItsSize, Delete, MaxEnd, Space;
    if ops != [] {
      var tag := ops[0].tag;
      DeletingNeverPanics(h, tag);
      DeleteIsFramed(h, tag);
      DeletionEnds(h, tag, end);
      DeletionsKeepRoom(Delete(h, tag), ops[1..], grow, end, space);
    }
  }

  lemma DeletionEnds(h: Header, tag: u32, end: nat)
    requires CanDelete(h, tag) && Space(h) <= end < U32_LIMIT && MaxEnd(Pieces(h.entries)) <= end
    ensures Space(Delete(h, tag)) <= Space(h) && |Delete(h, tag).entries| <= |h.entries|
    ensures MaxEnd(Pieces(Delete(h, tag).entries)) <= end
  {
    hide MaxEnd, Space, Delete;
    DeleteSpace(h, tag);
    if IndexOf(h.entries, tag) >= 0 {
      DeleteKeeps(h, tag);
      DeletedIsPacked(h, tag);
      PackedMaxEnd(Delete(h, tag));
    } else {
      NothingDeleted(h, tag);
    }
  }

  // SignRpm does not panic on a header with room whose signature, if there is one of the key's
  // type, is BINARY; and its result does not overflow.
  lemma SigningNeverPanics(h: Header, keyType: KeyType, packet: bytes, grow: Growth)
    requires Framed(h) && TrailerHasItsSize(h) && ReadyForSignature(h, keyType, |packet|) && packet != []
    requires HasReservation(h) ==> FairReservation(h)
    ensures CanSign(h, keyType, packet, grow)
    ensures Space(SignedHeader(h, keyType, packet, grow)) <= Space(h) + |packet| + 4117
    ensures Space(SignedHeader(h, keyType, packet, grow)) + 1 < U32_LIMIT
    ensures Fits(SignedHeader(h, keyType, packet, grow).entries)
  {
    hide Framed, MaxEnd, CanRun, Run, ItemsWith, Space, Roomy, SetOrAdd, HasData, HasReservation, FairReservation;
    var ops, tag := DeletionsFor(keyType), SignatureTag(keyType);
    DeletionsKeepRoom(h, ops, grow, MaxEnd(Pieces(h.entries)) + Space(h), Space(h));
    var stripped := Stripped(h, keyType, grow);
    StrippedItems(h, keyType, grow, tag);
    StrippedIsRoomy(h, stripped, |packet|);
    SameFormat(h, stripped, tag);
    SettingNeverPanics(stripped, tag, FORMAT_BINARY, packet);
    assert CanApply(stripped, SignatureOp(keyType, packet));
    RunInPieces(h, ops, [SignatureOp(keyType, packet)], grow);
    RunOne(stripped, SignatureOp(keyType, packet), grow);
    SigningInTwoSteps(h, keyType, packet, grow);
    StrippedReservation(h, keyType, grow);
    CanSetHasTrailerSize(stripped, tag, FORMAT_BINARY, packet);
    SetOrAddSpace(stripped, tag, FORMAT_BINARY, |packet|, packet, grow);
    SpaceFits(SignedHeader(h, keyType, packet, grow));
  }

  lemma StrippedIsRoomy(h: Header, stripped: Header, n: nat)
    requires Spacious(h, n) && Space(stripped) <= Space(h) && |stripped.entries| <= |h.entries|
    requires MaxEnd(Pieces(stripped.entries)) <= MaxEnd(Pieces(h.entries)) + Space(h)
    ensures Roomy(stripped, n)
  {
  }

  lemma SameFormat(h: Header, stripped: Header, tag: u32)
    requires ItemsWith(stripped.entries, tag) == ItemsWith(h.entries, tag)
    requires var i := IndexOf(h.entries, tag); i >= 0 ==> h.entries[i].format == FORMAT_BINARY
    ensures var i := IndexOf(stripped.entries, tag); i >= 0 ==> stripped.entries[i].format == FORMAT_BINARY
  {
    hide ItemsWith;
    FirstItem(h.entries, tag);
    FirstItem(stripped.entries, tag);
  }

  lemma StrippedReservation(h: Header, keyType: KeyType, grow: Growth)
    requires HasReservation(h) ==> FairReservation(h)
    requires !keyType.OtherKey? && CanRun(h, DeletionsFor(keyType), grow)
    ensures HasReservation(Stripped(h, keyType, grow)) ==> FairReservation(Stripped(h, keyType, grow))
  {
    hide CanRun, Run, HasReservation, FairReservation;
    if HasReservation(h) {
      RunReservationLaw(h, DeletionsFor(keyType), grow);
    } else {
      NoReservationAfterDeletions(h, DeletionsFor(keyType), grow);
    }
  }

  lemma {:induction false} NoReservationAfterDeletions(h: Header, ops: seq<Op>, grow: Growth)
    requires DeletionsOnly(ops) && CanRun(h, ops, grow) && !HasReservation(h)
    ensures !HasReservation(Run(h, ops, grow))
    decreases |ops|
  {
    hide HasReservation, Delete;
    if ops != [] {
      NoReservationAfterDelete(h, ops[0].tag);
      NoReservationAfterDeletions(Apply(h, ops[0], grow), ops[1..], grow);
    }
  }

  // ----- whole runs

  // How far the data reaches, now or laid out anew
  function Extent(h: Header): nat {
    Max(MaxEnd(Pieces(h.entries)), Space(h))
  }

  // The space that the operations can add
  function Demand(ops: seq<Op>): nat
    decreases |ops|
  {
    if ops == [] then 0
    else (if ops[0].SetOp? then |ops[0].payload| + 4117 else 0) + Demand(ops[1..])
  }

  // Room for the whole run
  predicate RoomForRun(h: Header, ops: seq<Op>) {
    && 3 * (Extent(h) + Demand(ops)) + 4 * (Demand(ops) + 8206) < U32_LIMIT
    && |h.entries| + 2 * |ops| + 2 < 0x1000_0000
  }

  // The operation is for a caller to make, and has the format of the entry it replaces.
  predicate OpFits(m: map<u32, Item>, op: Op) {
    && !OwnedByEditor(op.tag)
    && match op
       case SetOp(tag, format, _, payload) =>
         payload != [] && KnownFormat(format) && (tag in m ==> m[tag].format == format)
       case DeleteOp(_) => true
  }

  predicate OpsFit(m: map<u32, Item>, ops: seq<Op>)
    decreases |ops|
  {
    ops == [] || (OpFits(m, ops[0]) && OpsFit(Updated(m, ops[0]), ops[1..]))
  }

  // The map has the tags and formats of the header, if not its contents.
  ghost predicate SameKinds(h: Header, m: map<u32, Item>) {
    forall t: u32 :: t != TAG_RESERVED_SPACE ==>
      && (t in m <==> ItemOf(h, t).Some?)
      && (t in m ==> ItemOf(h, t).value.format == m[t].format)
  }

  function ItemsOf(h: Header): map<u32, Item> {
    map e | e in h.entries :: e.tag := ItemOf(h, e.tag).value
  }

  lemma ItemsRepresent(h: Header)
    ensures Represents(h, ItemsOf(h))
  {
    forall t: u32 ensures ItemOf(h, t) == if t in ItemsOf(h) then Some(ItemsOf(h)[t]) else None {
      var i := IndexOf(h.entries, t);
      if i >= 0 {
        assert h.entries[i] in h.entries;
      }
    }
  }

  lemma ItemsHaveTheirKinds(h: Header)
    ensures SameKinds(h, ItemsOf(h))
  {
    hide ItemsOf;
    ItemsRepresent(h);
  }

  // Setting a tag changes no other tag's format, not even when the pointer goes stale.
  lemma SetOrAddKinds(h: Header, tag: u32, format: u32, count: u32, payload: bytes, grow: Growth, t: u32)
    requires !OwnedByEditor(tag) && CanSet(h, tag, format, payload) && t != TAG_RESERVED_SPACE
    ensures var h' := SetOrAdd(h, tag, format, count, payload, grow);
            && (ItemOf(h', t).Some? <==> t == tag || ItemOf(h, t).Some?)
            && (ItemOf(h', t).Some? ==>
                  ItemOf(h', t).value.format == if t == tag then format else ItemOf(h, t).value.format)
  {
    hide SetOrAdd, PointerGoesStale, CanAllocate, HasData;
    SetOrAddIsMapUpdate(h, tag, format, count, payload, grow);
    if PointerGoesStale(h, tag, payload) {
      StaleKinds(h, tag, format, count, payload, grow, t);
    }
  }

  lemma StaleKinds(h: Header, tag: u32, format: u32, count: u32, payload: bytes, grow: Growth, t: u32)
    requires !OwnedByEditor(tag) && CanSet(h, tag, format, payload) && t != TAG_RESERVED_SPACE
    requires PointerGoesStale(h, tag, payload)
    ensures var h' := SetOrAdd(h, tag, format, count, payload, grow);
            && IndexOf(h.entries, tag) >= 0
            && (ItemOf(h', t).Some? <==> ItemOf(h, t).Some?)
            && (ItemOf(h', t).Some? ==> ItemOf(h', t).value.format == ItemOf(h, t).value.format)
  {
    hide Allocate, SyncLayout, InsertionPoint, ItemOf, Roomy, HasData;
    var i, reached := IndexOf(h.entries, tag), Allocated(h, tag, format, payload, grow);
    AllocationKeepsTrailerSize(h, U32(|payload|), format, grow);
    AllocationItems(h, U32(|payload|), format, grow, t);
    WrittenKinds(reached, i, count, payload, t);
    SyncItems(WithContents(reached, i, count, payload), t);
    SyncItems(reached, t);
  }

  lemma WrittenKinds(h: Header, i: nat, count: u32, payload: bytes, t: u32)
    requires i < |h.entries|
    ensures var h' := WithContents(h, i, count, payload);
            && (ItemOf(h', t).Some? <==> ItemOf(h, t).Some?)
            && (ItemOf(h', t).Some? ==> ItemOf(h', t).value.format == ItemOf(h, t).value.format)
  {
    IndexOfIs(WithContents(h, i, count, payload).entries, t, IndexOf(h.entries, t));
  }

  lemma ApplyKinds(h: Header, op: Op, grow: Growth, m: map<u32, Item>)
    requires Sound(h) && CanApply(h, op) && SameKinds(h, m)
    ensures SameKinds(Apply(h, op, grow), Updated(m, op))
  {
    hide SetOrAdd, Delete, ItemOf, CanAllocate, HasData, Intact, ItemsWith;
    forall t: u32 | t != TAG_RESERVED_SPACE
      ensures var h', m' := Apply(h, op, grow), Updated(m, op);
              && (t in m' <==> ItemOf(h', t).Some?)
              && (t in m' ==> ItemOf(h', t).value.format == m'[t].format)
    {
      match op
      case SetOp(tag, format, count, payload) => SetOrAddKinds(h, tag, format, count, payload, grow, t);
      case DeleteOp(tag) =>
        AscendingOccursOnce(h.entries, tag);
        DeleteIsMapRemoval(h, tag);
    }
  }

  // With room, an operation goes through exactly if it fits.
  lemma ApplyIffFits(h: Header, op: Op, m: map<u32, Item>)
    requires Sound(h) && SameKinds(h, m) && (op.SetOp? ==> Roomy(h, |op.payload|))
    ensures CanApply(h, op) <==> OpFits(m, op)
  {
    hide Framed, RegionOk, Ascending, Roomy, HasData;
    RegionHasTrailer(h);
    KindOfTag(h, m, op.tag);
    if OpFits(m, op) {
      match op
      case SetOp(tag, format, count, payload) => SettingNeverPanics(h, tag, format, payload);
      case DeleteOp(tag) => DeletingNeverPanics(h, tag);
    }
  }

  lemma KindOfTag(h: Header, m: map<u32, Item>, tag: u32)
    requires SameKinds(h, m)
    ensures tag != TAG_RESERVED_SPACE ==>
              var i := IndexOf(h.entries, tag);
              (i >= 0 <==> tag in m) && (i >= 0 ==> h.entries[i].format == m[tag].format)
  {
  }

  lemma StillRoom(h: Header, ops: seq<Op>, grow: Growth)
    requires Sound(h) && ops != [] && RoomForRun(h, ops) && CanApply(h, ops[0])
    requires HasReservation(h) ==> FairReservation(h)
    ensures RoomForRun(Apply(h, ops[0], grow), ops[1..])
  {
    hide Sound, Apply, CanApply, HasReservation, FairReservation, Space, MaxEnd, Packed, Effective;
    var after := Apply(h, ops[0], grow);
    ApplySpace(h, ops[0], grow);
    FewEntries(h, ops[0], grow);
    if Effective(h, ops[0]) {
      ApplyPacks(h, ops[0], grow);
      PackedMaxEnd(after);
    } else {
      IdleIsNothing(h, ops[0], grow);
    }
  }

  lemma RoomIsRoomy(h: Header, ops: seq<Op>)
    requires ops != [] && RoomForRun(h, ops)
    ensures |h.entries| < 0x1000_0000
    ensures ops[0].SetOp? ==> Roomy(h, |ops[0].payload|)
  {
    hide Span, MaxEnd;
  }

  // A run for which there is room goes through exactly if its operations fit: whether it does can
  // be told from the header at the outset.
  lemma {:induction false} RunIffFits(h: Header, ops: seq<Op>, grow: Growth, m: map<u32, Item>)
    requires Sound(h) && SameKinds(h, m) && RoomForRun(h, ops) && InCheck(h, ops)
    ensures CanRun(h, ops, grow) <==> OpsFit(m, ops)
    decreases |ops|
  {
    hide Sound, SameKinds, RoomForRun, Apply, CanApply, OpFits, Updated, HasReservation, FairReservation;
    if ops != [] {
      RoomIsRoomy(h, ops);
      ApplyIffFits(h, ops[0], m);
      if CanApply(h, ops[0]) {
        ApplyIsSound(h, ops[0], grow);
        ApplyKinds(h, ops[0], grow, m);
        StaysInCheck(h, ops, grow);
        StillRoom(h, ops, grow);
        RunIffFits(Apply(h, ops[0], grow), ops[1..], grow, Updated(m, ops[0]));
      }
    }
  }

  // ----- signing again and again

  predicate Possible(s: Signature) {
    !s.keyType.OtherKey? && 0 < |s.packet| < U32_LIMIT
  }

  predicate AllPossible(signatures: seq<Signature>) {
    forall i :: 0 <= i < |signatures| ==> Possible(signatures[i])
  }

  // The space that the signatures can add
  function SignatureSpace(signatures: seq<Signature>): nat {
    if signatures == [] then 0 else |signatures[0].packet| + 4117 + SignatureSpace(signatures[1..])
  }

  // Room for all signatures
  predicate RoomForSignatures(h: Header, signatures: seq<Signature>) {
    var n := SignatureSpace(signatures);
    && 3 * (Extent(h) + n) + 4 * (n + 8206) < U32_LIMIT
    && |h.entries| + 2 * |signatures| + 2 < 0x1000_0000
  }

  predicate IsSignature(tag: u32) {
    tag == TAG_RSA_HEADER || tag == TAG_DSA_HEADER
  }

  predicate BinarySignatures(entries: seq<Entry>) {
    forall j :: 0 <= j < |entries| && IsSignature(entries[j].tag) ==> entries[j].format == FORMAT_BINARY
  }

  // No signature is behind an entry that sorts behind the reservation.
  predicate NoneShifted(entries: seq<Entry>) {
    forall i, j :: 0 <= i < j < |entries| && entries[i].tag > TAG_RESERVED_SPACE ==> !IsSignature(entries[j].tag)
  }

  // No signature is ever written to its neighbour: there is reserved space, or none is needed to
  // keep the signatures where they are. Sorted headers are of this kind.
  predicate Steady(h: Header) {
    HasReservation(h) || NoneShifted(h.entries)
  }

  lemma SortedIsSteady(h: Header)
    requires Ascending(h.entries)
    ensures Steady(h)
  {
  }

  lemma SteadyHitsNothing(h: Header, tag: u32, payload: bytes)
    requires Steady(h) && IsSignature(tag)
    ensures !GoesAstray(h, tag, payload)
  {
    hide NeedsAllocation;
  }

  // ----- what signing keeps

  // Everything that the next signature needs, apart from room
  predicate Lasting(h: Header) {
    && Framed(h) && TrailerHasItsSize(h) && BinarySignatures(h.entries) && Steady(h)
    && (HasReservation(h) ==> FairReservation(h))
  }

  // Lists with the same tags and formats in the same places
  predicate Alike(a: seq<Entry>, b: seq<Entry>) {
    |a| == |b| && forall j :: 0 <= j < |a| ==> a[j].tag == b[j].tag && a[j].format == b[j].format
  }

  lemma KeptIsAlike(after: seq<Entry>, before: seq<Entry>)
    requires AllKept(after, before)
    ensures Alike(after, before)
  {
  }

  lemma AlikeIsSteady(a: seq<Entry>, b: seq<Entry>)
    requires Alike(a, b)
    ensures BinarySignatures(b) ==> BinarySignatures(a)
    ensures NoneShifted(b) ==> NoneShifted(a)
    ensures IndexOf(a, TAG_RESERVED_SPACE) == IndexOf(b, TAG_RESERVED_SPACE)
  {
    IndexOfIs(a, TAG_RESERVED_SPACE, IndexOf(b, TAG_RESERVED_SPACE));
  }

  lemma WithoutIsSteady(entries: seq<Entry>, tag: u32)
    ensures BinarySignatures(entries) ==> BinarySignatures(Without(entries, tag))
    ensures NoneShifted(entries) ==> NoneShifted(Without(entries, tag))
  {
  }

  lemma DeleteIsLasting(h: Header, tag: u32)
    requires Lasting(h) && !OwnedByEditor(tag) && |h.entries| < 0x1000_0000
    ensures Lasting(Delete(h, tag)) && |Delete(h, tag).entries| <= |h.entries|
  {
    hide Framed, TrailerHasItsSize, BinarySignatures, NoneShifted, Delete, AllKept, Alike, ItemAt;
    DeleteIsFramed(h, tag);
    DeleteIsWithout(h, tag);
    KeptLength(Delete(h, tag).entries, Without(h.entries, tag));
    KeptIsAlike(Delete(h, tag).entries, Without(h.entries, tag));
    AlikeIsSteady(Delete(h, tag).entries, Without(h.entries, tag));
    WithoutIsSteady(h.entries, tag);
    DeletingNeverPanics(h, tag);
    if HasReservation(h) {
      ApplyReservationLaw(h, DeleteOp(tag), _ => 0);
    } else {
      NoReservationAfterDelete(h, tag);
    }
  }

  lemma {:induction false} DeletionsAreLasting(h: Header, ops: seq<Op>, grow: Growth)
    requires Lasting(h) && |h.entries| < 0x1000_0000 && DeletionsOnly(ops) && CanRun(h, ops, grow)
    ensures Lasting(Run(h, ops, grow)) && |Run(h, ops, grow).entries| <= |h.entries|
    decreases |ops|
  {
    hide Lasting, Delete;
    if ops != [] {
      DeleteIsLasting(h, ops[0].tag);
      DeletionsAreLasting(Apply(h, ops[0], grow), ops[1..], grow);
    }
  }

  // Whatever an allocation inserts or replaces is reserved space.
  lemma AllocationIsSteady(h: Header, n: u32, format: u32, grow: Growth)
    requires TrailerHasItsSize(h) && BinarySignatures(h.entries)
    ensures var after := Allocate(h, n, format, grow).h; BinarySignatures(after.entries) && HasReservation(after)
  {
    hide Allocate, AllKept, InsertionPoint, Alike;
    AllocationIsReserving(h, n, format, grow);
    var after, r := Allocate(h, n, format, grow).h.entries, ReservedAt(h.entries);
    KeptIsAlike(after, Reserving(h.entries, after[r]));
    AlikeIsSteady(after, Reserving(h.entries, after[r]));
  }

  lemma InsertIsSteady(h: Header, e: Entry, grow: Growth)
    requires TrailerHasItsSize(h) && BinarySignatures(h.entries) && e.format == FORMAT_BINARY && IsSignature(e.tag)
    ensures BinarySignatures(Insert(h, e, grow).entries)
  {
    hide Insert, AllKept, InsertionPoint, Alike;
    InsertIsInsertion(h, e, grow);
    var before, after := InsertAt(h.entries, InsertionPoint(h.entries, e.tag), e), Insert(h, e, grow).entries;
    KeptIsAlike(after, before);
    AlikeIsSteady(after, before);
  }

  lemma WrittenIsAlike(h: Header, i: nat, count: u32, payload: bytes)
    requires i < |h.entries|
    ensures Alike(SyncLayout(WithContents(h, i, count, payload)).entries, h.entries)
    ensures Alike(SyncLayout(h).entries, h.entries)
  {
    hide LayoutOffset, LayoutSize;
  }

  lemma StoringIsSteady(h: Header, tag: u32, packet: bytes, grow: Growth)
    requires TrailerHasItsSize(h) && BinarySignatures(h.entries) && Steady(h) && IsSignature(tag)
    requires |packet| < U32_LIMIT
    ensures var h' := SetOrAdd(h, tag, FORMAT_BINARY, |packet|, packet, grow);
            BinarySignatures(h'.entries) && Steady(h')
  {
    hide Allocate, Insert, SyncLayout, BinarySignatures, NoneShifted, NeedsAllocation, Alike;
    AllocationIsSteady(h, |packet|, FORMAT_BINARY, grow);
    AllocationKeepsTrailerSize(h, |packet|, FORMAT_BINARY, grow);
    var i, allocation := IndexOf(h.entries, tag), Allocate(h, |packet|, FORMAT_BINARY, grow);
    if i < 0 {
      AllocationItems(h, |packet|, FORMAT_BINARY, grow, tag);
      InsertIsSteady(allocation.h, Entry(tag, FORMAT_BINARY, allocation.address, |packet|, packet), grow);
      AddingReserves(h, tag, FORMAT_BINARY, |packet|, packet, grow);
    } else {
      var reached, h' := Allocated(h, tag, FORMAT_BINARY, packet, grow),
                         SetOrAdd(h, tag, FORMAT_BINARY, |packet|, packet, grow);
      WrittenIsAlike(reached, i, |packet|, packet);
      AlikeIsSteady(h'.entries, reached.entries);
    }
  }

  lemma StoringKeepsTrailerSize(h: Header, tag: u32, payload: bytes, grow: Growth)
    requires TrailerHasItsSize(h) && !h.isMain && IsSignature(tag) && !GoesAstray(h, tag, payload)
    requires |payload| < U32_LIMIT
    ensures TrailerHasItsSize(SetOrAdd(h, tag, FORMAT_BINARY, |payload|, payload, grow))
  {
    hide Allocate, Insert, SyncLayout, NeedsAllocation, SameTrailer;
    AllocationKeepsTrailerSize(h, |payload|, FORMAT_BINARY, grow);
    var i, allocation := IndexOf(h.entries, tag), Allocate(h, |payload|, FORMAT_BINARY, grow);
    if i < 0 {
      InsertKeepsTrailerSize(allocation.h, Entry(tag, FORMAT_BINARY, allocation.address, |payload|, payload), grow);
    } else {
      var reached := Allocated(h, tag, FORMAT_BINARY, payload, grow);
      ReachedEntry(h, tag, FORMAT_BINARY, payload, grow);
      WriteKeepsTrailerSize(reached, i, |payload|, payload);
    }
  }

  lemma WriteKeepsTrailerSize(h: Header, i: nat, count: u32, payload: bytes)
    requires TrailerHasItsSize(h) && i < |h.entries|
    ensures TrailerHasItsSize(SyncLayout(h))
    ensures h.entries[i].tag != TAG_HEADER_SIGNATURES ==>
              TrailerHasItsSize(SyncLayout(WithContents(h, i, count, payload)))
  {
    hide LayoutOffset, LayoutSize;
    var written := WithContents(h, i, count, payload);
    SyncKeepsTheTrailer(h);
    SyncKeepsTheTrailer(written);
    if h.entries[i].tag != TAG_HEADER_SIGNATURES {
      ReplacementKeepsTheTrailer(h, written, i);
    }
  }

  lemma StoringIsLasting(h: Header, tag: u32, packet: bytes, grow: Growth)
    requires Lasting(h) && IsSignature(tag) && |packet| < U32_LIMIT
    requires CanApply(h, SetOp(tag, FORMAT_BINARY, |packet|, packet))
    ensures Lasting(SetOrAdd(h, tag, FORMAT_BINARY, |packet|, packet, grow))
  {
    hide SetOrAdd, TrailerHasItsSize, BinarySignatures, Steady, HasReservation, FairReservation, HasData, GoesAstray;
    hide KnownFormats, HasPayloads;
    var op := SetOp(tag, FORMAT_BINARY, |packet|, packet);
    FitsInAWord(h, tag, FORMAT_BINARY, packet);
    assert |h.entries| + 2 < 0x1000_0000;
    SetOrAddIsFramed(h, tag, FORMAT_BINARY, |packet|, packet, grow);
    SteadyHitsNothing(h, tag, packet);
    StoringKeepsTrailerSize(h, tag, packet, grow);
    StoringIsSteady(h, tag, packet, grow);
    if HasReservation(h) {
      ApplyReservationLaw(h, op, grow);
    } else {
      MadeReservationIsFair(h, tag, FORMAT_BINARY, |packet|, packet, grow);
    }
  }

  lemma SigningIsLasting(h: Header, keyType: KeyType, packet: bytes, grow: Growth)
    requires Lasting(h) && |h.entries| < 0x1000_0000 && CanSign(h, keyType, packet, grow)
    ensures Lasting(SignedHeader(h, keyType, packet, grow))
    ensures !HitsNeighbour(h, keyType, packet)
  {
    hide Lasting, CanRun, Run, SetOrAdd, HitsNeighbour, GoesAstray;
    SigningInTwoSteps(h, keyType, packet, grow);
    var stripped, tag := Stripped(h, keyType, grow), SignatureTag(keyType);
    DeletionsAreLasting(h, DeletionsFor(keyType), grow);
    StoringIsLasting(stripped, tag, packet, grow);
    assert Framed(h) by { LastingIsFramed(h); }
    LastingIsFramed(stripped);
    SteadyHitsNothing(stripped, tag, packet);
    LostIffStale(h, keyType, packet, grow);
  }

  lemma LastingIsFramed(h: Header)
    requires Lasting(h)
    ensures Framed(h) && Steady(h)
  {
  }

  // Reserved space that is BINARY stays so, and is made so.
  lemma SignedReservation(h: Header, keyType: KeyType, packet: bytes, grow: Growth)
    requires CanSign(h, keyType, packet, grow)
    requires HasReservation(h) ==> FairReservation(h) && Reservation(h).format == FORMAT_BINARY
    ensures var h' := SignedHeader(h, keyType, packet, grow);
            HasReservation(h') ==> FairReservation(h') && Reservation(h').format == FORMAT_BINARY
  {
    hide CanRun, Run, SetOrAdd, CanAllocate, HasReservation, FairReservation, HasData, Reservation;
    if HasReservation(h) {
      RunReservationLaw(h, SigningOps(keyType, packet), grow);
    } else {
      SigningInTwoSteps(h, keyType, packet, grow);
      NoReservationAfterDeletions(h, DeletionsFor(keyType), grow);
      var stripped, tag := Stripped(h, keyType, grow), SignatureTag(keyType);
      CanSetHasTrailerSize(stripped, tag, FORMAT_BINARY, packet);
      MadeReservationIsFair(stripped, tag, FORMAT_BINARY, |packet|, packet, grow);
    }
  }

  // ----- any number of signatures

  lemma RoomForFirst(h: Header, signatures: seq<Signature>)
    requires signatures != [] && AllPossible(signatures) && Lasting(h) && RoomForSignatures(h, signatures)
    ensures |h.entries| < 0x1000_0000
    ensures ReadyForSignature(h, signatures[0].keyType, |signatures[0].packet|)
  {
    hide MaxEnd, Span, IndexOf;
  }

  lemma RoomForRest(h: Header, signatures: seq<Signature>, grow: Growth)
    requires signatures != [] && AllPossible(signatures) && Lasting(h) && RoomForSignatures(h, signatures)
    ensures CanSign(h, signatures[0].keyType, signatures[0].packet, grow)
    ensures RoomForSignatures(SignedHeader(h, signatures[0].keyType, signatures[0].packet, grow), signatures[1..])
  {
    hide SignedHeader, CanSign, Space, MaxEnd, Framed, Packed, ReadyForSignature, HasReservation, FairReservation;
    var s := signatures[0];
    RoomForFirst(h, signatures);
    SigningNeverPanics(h, s.keyType, s.packet, grow);
    SigningKeepsFrame(h, s.keyType, s.packet, grow);
    SigningAddsFew(h, s.keyType, s.packet, grow);
    PackedMaxEnd(SignedHeader(h, s.keyType, s.packet, grow));
  }

  lemma SigningAddsFew(h: Header, keyType: KeyType, packet: bytes, grow: Growth)
    requires |h.entries| < 0x1000_0000 && CanSign(h, keyType, packet, grow)
    ensures |SignedHeader(h, keyType, packet, grow).entries| <= |h.entries| + 2
  {
    hide CanRun, Run, Apply, CanApply;
    SigningInTwoSteps(h, keyType, packet, grow);
    DeletionsShrink(h, DeletionsFor(keyType), grow);
    FewEntries(Stripped(h, keyType, grow), SignatureOp(keyType, packet), grow);
  }

  // With room for all of them, any number of signatures can be stored one after the other: no
  // SignRpm panics.
  lemma {:induction false} SigningAllNeverPanics(h: Header, signatures: seq<Signature>, grow: Growth)
    requires Lasting(h) && AllPossible(signatures) && RoomForSignatures(h, signatures)
    ensures CanSignAll(h, signatures, grow)
    decreases |signatures|
  {
    hide Lasting, RoomForSignatures, CanSign, SignedHeader;
    if signatures != [] {
      var s := signatures[0];
      RoomForFirst(h, signatures);
      RoomForRest(h, signatures, grow);
      SigningIsLasting(h, s.keyType, s.packet, grow);
      SigningAllNeverPanics(SignedHeader(h, s.keyType, s.packet, grow), signatures[1..], grow);
    }
  }
}
