// SignRpm (common/signing.go:403-441) as a sequence of edits of the signature header.
module Signing {
  import opened Bits
  import opened DynamicArrays
  import opened Headers
  import opened Layouts
  import opened Editing
  import opened HeaderMaps
  import opened Multimaps
  import opened EditorRuns
  import opened MapRuns

  datatype KeyType = RSA | DSA | OtherKey

  datatype PrivateKey = PrivateKey(keyType: KeyType, material: bytes)

  // SignDigest: the signature of the digested bytes, or an error. Nothing else is known of it.
  type Signer = (PrivateKey, bytes) -> Option<bytes>

  function SignatureTag(keyType: KeyType): u32
    requires !keyType.OtherKey?
  {
    if keyType.RSA? then TAG_RSA_HEADER else TAG_DSA_HEADER
  }

  function OtherSignatureTag(keyType: KeyType): u32
    requires !keyType.OtherKey?
  {
    if keyType.RSA? then TAG_DSA_HEADER else TAG_RSA_HEADER
  }

  // The deletions, in the order of the source
  function DeletionsFor(keyType: KeyType): seq<Op>
    requires !keyType.OtherKey?
  {
    [DeleteOp(OtherSignatureTag(keyType)), DeleteOp(TAG_PGP), DeleteOp(TAG_PGP5), DeleteOp(TAG_GPG)]
  }

  function DeletedTags(keyType: KeyType): set<u32>
    requires !keyType.OtherKey?
  {
    {OtherSignatureTag(keyType), TAG_PGP, TAG_PGP5, TAG_GPG}
  }

  function SignatureOp(keyType: KeyType, signature: bytes): Op
    requires !keyType.OtherKey? && |signature| < U32_LIMIT
  {
    SetOp(SignatureTag(keyType), FORMAT_BINARY, |signature|, signature)
  }

  function SigningOps(keyType: KeyType, signature: bytes): seq<Op>
    requires !keyType.OtherKey? && |signature| < U32_LIMIT
  {
    DeletionsFor(keyType) + [SignatureOp(keyType, signature)]
  }

  // SignRpm does not panic: the trailer has its size, an existing signature is BINARY, and there
  // is room.
  predicate CanSign(h: Header, keyType: KeyType, signature: bytes, grow: Growth) {
    && !keyType.OtherKey? && |signature| < U32_LIMIT
    && CanRun(h, SigningOps(keyType, signature), grow)
  }

  function SignedHeader(h: Header, keyType: KeyType, signature: bytes, grow: Growth): Header
    requires CanSign(h, keyType, signature, grow)
  {
    Run(h, SigningOps(keyType, signature), grow)
  }

  lemma PacketIsShort(h: Header, keyType: KeyType, packet: bytes, grow: Growth)
    requires CanSign(h, keyType, packet, grow)
    ensures |packet| < U32_LIMIT && !keyType.OtherKey?
  {
  }

  // ----- runs in pieces

  lemma {:induction false} RunInPieces(h: Header, ops: seq<Op>, more: seq<Op>, grow: Growth)
    ensures CanRun(h, ops + more, grow) <==>
              CanRun(h, ops, grow) && CanRun(Run(h, ops, grow), more, grow)
    ensures CanRun(h, ops + more, grow) ==>
              Run(h, ops + more, grow) == Run(Run(h, ops, grow), more, grow)
    decreases |ops|
  {
    hide Apply, CanApply;
    if ops == [] {
      assert ops + more == more;
    } else {
      assert (ops + more)[0] == ops[0] && (ops + more)[1..] == ops[1..] + more;
      if CanApply(h, ops[0]) {
        RunInPieces(Apply(h, ops[0], grow), ops[1..], more, grow);
      }
    }
  }

  // The header just before the signature is stored
  function Stripped(h: Header, keyType: KeyType, grow: Growth): Header
    requires !keyType.OtherKey? && CanRun(h, DeletionsFor(keyType), grow)
  {
    Run(h, DeletionsFor(keyType), grow)
  }

  lemma RunOne(h: Header, op: Op, grow: Growth)
    ensures CanRun(h, [op], grow) <==> CanApply(h, op)
    ensures CanApply(h, op) ==> Run(h, [op], grow) == Apply(h, op, grow)
  {
    hide Apply, CanApply;
    if CanApply(h, op) {
      var h' := Apply(h, op, grow);
      assert CanRun(h', [op][1..], grow) && Run(h', [op][1..], grow) == h';
    }
  }

  lemma SigningInTwoSteps(h: Header, keyType: KeyType, signature: bytes, grow: Growth)
    requires CanSign(h, keyType, signature, grow)
    ensures CanRun(h, DeletionsFor(keyType), grow)
    ensures CanApply(Stripped(h, keyType, grow), SignatureOp(keyType, signature))
    ensures SignedHeader(h, keyType, signature, grow) ==
            Apply(Stripped(h, keyType, grow), SignatureOp(keyType, signature), grow)
  {
    hide Apply, CanApply, CanRun, Run;
    RunInPieces(h, DeletionsFor(keyType), [SignatureOp(keyType, signature)], grow);
    RunOne(Stripped(h, keyType, grow), SignatureOp(keyType, signature), grow);
  }

  // ----- deletions

  predicate DeletionsOnly(ops: seq<Op>) {
    forall i :: 0 <= i < |ops| ==> ops[i].DeleteOp?
  }

  lemma {:induction false} DeletionsNeverGoStale(h: Header, ops: seq<Op>, grow: Growth)
    requires DeletionsOnly(ops) && CanRun(h, ops, grow)
    ensures NeverStale(h, ops, grow)
    decreases |ops|
  {
    hide Apply, CanApply;
    if ops != [] {
      DeletionsNeverGoStale(Apply(h, ops[0], grow), ops[1..], grow);
    }
  }

  // What the deletions leave of the entries
  function WithoutAll(entries: seq<Entry>, ops: seq<Op>): seq<Entry>
    decreases |ops|
  {
    if ops == [] then entries else WithoutAll(Without(entries, ops[0].tag), ops[1..])
  }

  function Staying(entries: seq<Entry>, keyType: KeyType): seq<Entry>
    requires !keyType.OtherKey?
  {
    WithoutAll(entries, DeletionsFor(keyType))
  }

  lemma KeptWithout(after: seq<Entry>, before: seq<Entry>, tag: u32)
    requires AllKept(after, before)
    ensures AllKept(Without(after, tag), Without(before, tag))
  {
    hide Kept, IndexOf;
    KeptIndices(after, before, tag);
  }

  lemma KeptIsTransitive(a: seq<Entry>, b: seq<Entry>, c: seq<Entry>)
    requires AllKept(a, b) && AllKept(b, c)
    ensures AllKept(a, c)
  {
  }

  lemma {:induction false} DeletionsLeave(h: Header, before: seq<Entry>, ops: seq<Op>, grow: Growth)
    requires DeletionsOnly(ops) && CanRun(h, ops, grow) && AllKept(h.entries, before)
    ensures AllKept(Run(h, ops, grow).entries, WithoutAll(before, ops))
    decreases |ops|
  {
    hide AllKept, Delete;
    if ops != [] {
      var tag := ops[0].tag;
      DeleteIsWithout(h, tag);
      KeptWithout(h.entries, before, tag);
      KeptIsTransitive(Delete(h, tag).entries, Without(h.entries, tag), Without(before, tag));
      DeletionsLeave(Apply(h, ops[0], grow), Without(before, tag), ops[1..], grow);
    }
  }

  lemma StrippedIsStaying(h: Header, keyType: KeyType, grow: Growth)
    requires !keyType.OtherKey? && CanRun(h, DeletionsFor(keyType), grow)
    ensures AllKept(Stripped(h, keyType, grow).entries, Staying(h.entries, keyType))
  {
    KeptIsReflexive();
    DeletionsLeave(h, h.entries, DeletionsFor(keyType), grow);
  }

  // The items of a tag that the deletions leave
  function ItemsLeft(h: Header, keyType: KeyType, t: u32): seq<Item>
    requires !keyType.OtherKey?
  {
    if t in DeletedTags(keyType) then Tail(ItemsWith(h.entries, t)) else ItemsWith(h.entries, t)
  }

  lemma StrippedItems(h: Header, keyType: KeyType, grow: Growth, t: u32)
    requires !keyType.OtherKey? && CanRun(h, DeletionsFor(keyType), grow) && t != TAG_RESERVED_SPACE
    ensures ItemsWith(Stripped(h, keyType, grow).entries, t) == ItemsLeft(h, keyType, t)
  {
    hide ItemsWith, CanRun, Run;
    DeletionsNeverGoStale(h, DeletionsFor(keyType), grow);
    RunEdits(h, DeletionsFor(keyType), grow, t);
    EditsOfDeletions(ItemsWith(h.entries, t), keyType, t);
  }

  lemma EditsOfDeletions(items: seq<Item>, keyType: KeyType, t: u32)
    requires !keyType.OtherKey?
    ensures AllEdited(items, DeletionsFor(keyType), t) == if t in DeletedTags(keyType) then Tail(items) else items
  {
    hide Tail;
    var ops := DeletionsFor(keyType);
    var a := Edited(items, ops[0], t);
    var b := Edited(a, ops[1], t);
    var c := Edited(b, ops[2], t);
    assert AllEdited(items, ops, t) == AllEdited(a, ops[1..], t) == AllEdited(b, ops[1..][1..], t);
    assert AllEdited(b, ops[1..][1..], t) == AllEdited(c, ops[1..][1..][1..], t);
    assert AllEdited(c, ops[1..][1..][1..], t) == AllEdited(Edited(c, ops[3], t), [], t);
  }

  // ----- one signature

  // The tag of the entry that ends last once the entries are laid out in index order
  predicate EndsWith(entries: seq<Entry>, tag: u32) {
    var t := IndexOf(entries, TAG_HEADER_SIGNATURES);
    var last := if t == |entries| - 1 then |entries| - 2 else |entries| - 1;
    last >= 0 && entries[last].tag == tag
  }

  // The packet does not fit into the place of an old signature, which is not at the end of the
  // data. If something is deleted first, that lays out the data.
  predicate Outgrows(h: Header, keyType: KeyType, packet: bytes)
    requires !keyType.OtherKey?
  {
    var rest, tag := Staying(h.entries, keyType), SignatureTag(keyType);
    var i := IndexOf(rest, tag);
    && i >= 0 && |packet| > |rest[i].payload|
    && !(if |rest| < |h.entries| then EndsWith(rest, tag) else IsAtEnd(h, tag))
  }

  // An entry that stays and sorts behind the reservation is in front of the signature.
  predicate IsShifted(h: Header, keyType: KeyType)
    requires !keyType.OtherKey?
  {
    var rest := Staying(h.entries, keyType);
    IndexOf(rest, SignatureTag(keyType)) > InsertionPoint(rest, TAG_RESERVED_SPACE)
  }

  // No space is reserved for a packet that outgrows its place, and the slice has to move, or the
  // entry in it does.
  predicate SignatureIsLost(h: Header, keyType: KeyType, packet: bytes)
    requires !keyType.OtherKey?
  {
    && Outgrows(h, keyType, packet) && !HasReservation(h)
    && (|Staying(h.entries, keyType)| + 1 > h.capacity || IsShifted(h, keyType))
  }

  // The packet is written to the entry in front of the signature.
  predicate HitsNeighbour(h: Header, keyType: KeyType, packet: bytes)
    requires !keyType.OtherKey?
  {
    SignatureIsLost(h, keyType, packet) && |Staying(h.entries, keyType)| + 1 <= h.capacity
  }

  function Neighbour(h: Header, keyType: KeyType): Entry
    requires !keyType.OtherKey? && IsShifted(h, keyType)
  {
    Staying(h.entries, keyType)[IndexOf(Staying(h.entries, keyType), SignatureTag(keyType)) - 1]
  }

  lemma {:induction false} NothingToDelete(h: Header, ops: seq<Op>, grow: Growth)
    requires DeletionsOnly(ops) && CanRun(h, ops, grow)
    requires forall i :: 0 <= i < |ops| ==> IndexOf(h.entries, ops[i].tag) < 0
    ensures Run(h, ops, grow) == h
    decreases |ops|
  {
    if ops != [] {
      assert Apply(h, ops[0], grow) == h;
      NothingToDelete(h, ops[1..], grow);
    }
  }

  lemma {:induction false} DeletionsShrink(h: Header, ops: seq<Op>, grow: Growth)
    requires DeletionsOnly(ops) && CanRun(h, ops, grow)
    ensures Run(h, ops, grow).capacity == h.capacity && |Run(h, ops, grow).entries| <= |h.entries|
    ensures Touches(h, ops) ==> |Run(h, ops, grow).entries| < |h.entries|
    decreases |ops|
  {
    hide Apply, CanApply, Effective, Touches;
    if ops == [] {
      NothingTouches(h, ops);
    } else {
      DeletionShrinks(h, ops[0], grow);
      if !Effective(h, ops[0]) {
        IdleIsNothing(h, ops[0], grow);
        TouchesLater(h, ops);
      }
      DeletionsShrink(Apply(h, ops[0], grow), ops[1..], grow);
    }
  }

  lemma DeletionShrinks(h: Header, op: Op, grow: Growth)
    requires op.DeleteOp? && CanApply(h, op)
    ensures var h' := Apply(h, op, grow);
            && h'.capacity == h.capacity && |h'.entries| <= |h.entries|
            && (Effective(h, op) ==> |h'.entries| < |h.entries|)
  {
    hide LayoutOffset, LayoutSize, WithRegion, U32;
  }

  // In a packed header the last entry but the trailer ends last.
  lemma PackedEnd(h: Header, tag: u32)
    requires Packed(h) && Fits(h.entries) && HasPayloads(h.entries) && !h.isMain
    ensures IsAtEnd(h, tag) <==> EndsWith(h.entries, tag)
  {
    hide LayoutOffset, LayoutSize, Fits, LastByEnd;
    var t, n := TrailerIndex(h), |h.entries|;
    var last := if t == n - 1 then n - 2 else n - 1;
    forall j | 0 <= j < n
      ensures h.entries[j].EndOffset() == h.entries[j].offset + |h.entries[j].payload|
      ensures j != t && j < last ==> h.entries[j].EndOffset() < h.entries[last].EndOffset()
    {
      PackedEntryIsPlaced(h, j);
      if j != t && j < last {
        PackedEntryIsPlaced(h, last);
        PlacedInOrder(h.entries, t, j, last);
      }
    }
    var i := LastByEnd(h.entries, t, n);
    if last >= 0 {
      assert h.entries[last].EndOffset() > 0;
      assert i == last;
    } else {
      assert i < 0;
    }
  }

  lemma PackedEntryIsPlaced(h: Header, j: nat)
    requires Packed(h) && Fits(h.entries) && j < |h.entries|
    ensures h.entries[j].offset == LayoutOffset(h.entries, TrailerIndex(h), j)
    ensures h.entries[j].EndOffset() == h.entries[j].offset + |h.entries[j].payload|
  {
    hide LayoutOffset, LayoutSize, Fits;
    assert SyncLayout(h).entries[j] == h.entries[j];
    PlacedInStore(h.entries, TrailerIndex(h), j);
  }

  // What is known of the header at the moment the signature is stored
  lemma StrippedHeader(h: Header, keyType: KeyType, packet: bytes, grow: Growth)
    requires Framed(h) && |h.entries| < 0x1000_0000 && CanSign(h, keyType, packet, grow)
    ensures CanRun(h, DeletionsFor(keyType), grow)
    ensures var rest, stripped := Staying(h.entries, keyType), Stripped(h, keyType, grow);
            && Framed(stripped) && stripped.capacity == h.capacity && AllKept(stripped.entries, rest)
            && (if |rest| < |h.entries| then Packed(stripped) else stripped == h)
            && |rest| <= |h.entries| && Fits(stripped.entries)
  {
    hide Framed, CanRun, Run, CanApply, Apply, Touches, Packed, Fits, AllKept;
    SigningInTwoSteps(h, keyType, packet, grow);
    var ops := DeletionsFor(keyType);
    assert DeletionsOnly(ops);
    StrippedIsStaying(h, keyType, grow);
    RunIsFramed(h, ops, grow);
    DeletionsShrink(h, ops, grow);
    StorableFits(Stripped(h, keyType, grow), SignatureOp(keyType, packet));
    KeptLength(Stripped(h, keyType, grow).entries, Staying(h.entries, keyType));
  }

  lemma KeptLength(after: seq<Entry>, before: seq<Entry>)
    requires AllKept(after, before)
    ensures |after| == |before|
  {
  }

  lemma StorableFits(h: Header, op: Op)
    requires CanApply(h, op) && op.SetOp?
    ensures Fits(h.entries)
  {
    hide HasData;
  }

  lemma OutgrowsIffNeeded(h: Header, keyType: KeyType, packet: bytes, grow: Growth)
    requires Framed(h) && |h.entries| < 0x1000_0000 && CanSign(h, keyType, packet, grow)
    ensures CanRun(h, DeletionsFor(keyType), grow)
    ensures NeedsAllocation(Stripped(h, keyType, grow), SignatureTag(keyType), packet) <==>
            Outgrows(h, keyType, packet)
  {
    hide CanRun, Run, Packed, IsAtEnd, EndsWith, Staying, KnownFormats, CanSign, Fits;
    PacketIsShort(h, keyType, packet, grow);
    StrippedHeader(h, keyType, packet, grow);
    var stripped, rest, tag := Stripped(h, keyType, grow), Staying(h.entries, keyType), SignatureTag(keyType);
    KeptIndices(stripped.entries, rest, tag);
    if |rest| < |h.entries| {
      PackedEnd(stripped, tag);
      KeptEnd(stripped.entries, rest, tag);
    }
  }

  lemma KeptEnd(after: seq<Entry>, before: seq<Entry>, tag: u32)
    requires AllKept(after, before)
    ensures EndsWith(after, tag) <==> EndsWith(before, tag)
  {
    KeptIndices(after, before, TAG_HEADER_SIGNATURES);
  }

  // No deletion touches the reservation.
  lemma StayingReservation(entries: seq<Entry>, keyType: KeyType)
    requires !keyType.OtherKey?
    ensures IndexOf(Staying(entries, keyType), TAG_RESERVED_SPACE) < 0 <==> IndexOf(entries, TAG_RESERVED_SPACE) < 0
  {
    hide IndexOf, ItemsWith;
    LeftOfOthers(entries, DeletionsFor(keyType), TAG_RESERVED_SPACE);
    FirstItem(entries, TAG_RESERVED_SPACE);
    FirstItem(Staying(entries, keyType), TAG_RESERVED_SPACE);
  }

  lemma {:induction false} LeftOfOthers(entries: seq<Entry>, ops: seq<Op>, t: u32)
    requires forall i :: 0 <= i < |ops| ==> ops[i].tag != t
    ensures ItemsWith(WithoutAll(entries, ops), t) == ItemsWith(entries, t)
    decreases |ops|
  {
    hide ItemsWith, Without;
    if ops != [] {
      ItemsWithout(entries, ops[0].tag, t);
      LeftOfOthers(Without(entries, ops[0].tag), ops[1..], t);
    }
  }

  // The signature is stored through a stale pointer exactly if it is lost.
  lemma LostIffStale(h: Header, keyType: KeyType, packet: bytes, grow: Growth)
    requires Framed(h) && |h.entries| < 0x1000_0000 && CanSign(h, keyType, packet, grow)
    ensures CanRun(h, DeletionsFor(keyType), grow)
    ensures var stripped, tag := Stripped(h, keyType, grow), SignatureTag(keyType);
            && (PointerGoesStale(stripped, tag, packet) <==> SignatureIsLost(h, keyType, packet))
            && (GoesAstray(stripped, tag, packet) <==> HitsNeighbour(h, keyType, packet))
            && (HitsNeighbour(h, keyType, packet) ==>
                  StruckTag(stripped.entries, tag) == Neighbour(h, keyType).tag)
  {
    hide CanSign, CanRun, Run, Framed, SignatureIsLost, HitsNeighbour, PointerGoesStale, GoesAstray, StruckTag;
    hide NeedsAllocation, Outgrows, Packed, Fits, AllKept, IsShifted, Staying, Neighbour;
    PacketIsShort(h, keyType, packet, grow);
    StrippedHeader(h, keyType, packet, grow);
    OutgrowsIffNeeded(h, keyType, packet, grow);
    StaleByStaying(h, Stripped(h, keyType, grow), keyType, packet);
  }

  lemma StaleByStaying(h: Header, stripped: Header, keyType: KeyType, packet: bytes)
    requires !keyType.OtherKey? && AllKept(stripped.entries, Staying(h.entries, keyType))
    requires stripped.capacity == h.capacity
    requires NeedsAllocation(stripped, SignatureTag(keyType), packet) <==> Outgrows(h, keyType, packet)
    ensures var tag := SignatureTag(keyType);
            && (PointerGoesStale(stripped, tag, packet) <==> SignatureIsLost(h, keyType, packet))
            && (GoesAstray(stripped, tag, packet) <==> HitsNeighbour(h, keyType, packet))
            && (HitsNeighbour(h, keyType, packet) ==>
                  StruckTag(stripped.entries, tag) == Neighbour(h, keyType).tag)
  {
    hide Staying, NeedsAllocation, Outgrows, InsertionPoint, IndexOf;
    var rest, tag := Staying(h.entries, keyType), SignatureTag(keyType);
    KeptIndices(stripped.entries, rest, tag);
    KeptIndices(stripped.entries, rest, TAG_RESERVED_SPACE);
    StayingReservation(h.entries, keyType);
    if Outgrows(h, keyType, packet) {
      OutgrownIsThere(h, keyType, packet);
    }
  }

  lemma OutgrownIsThere(h: Header, keyType: KeyType, packet: bytes)
    requires !keyType.OtherKey? && Outgrows(h, keyType, packet)
    ensures IndexOf(Staying(h.entries, keyType), SignatureTag(keyType)) >= 0
  {
  }

  lemma CanSetHasTrailerSize(h: Header, tag: u32, format: u32, payload: bytes)
    requires CanSet(h, tag, format, payload)
    ensures TrailerHasItsSize(h)
    ensures IndexOf(h.entries, tag) >= 0 ==> h.entries[IndexOf(h.entries, tag)].format == format
  {
  }

  // How often a tag occurs after signing, if it did n times before: the tags that are deleted once
  // less, the tag of the signature at least once
  function CountAfter(n: nat, keyType: KeyType, t: u32): nat
    requires !keyType.OtherKey?
  {
    if t == SignatureTag(keyType) then Max(n, 1) else if t in DeletedTags(keyType) && n > 0 then n - 1 else n
  }

  // This holds whatever a pointer hits.
  lemma SignedCounts(h: Header, keyType: KeyType, packet: bytes, grow: Growth, t: u32)
    requires CanSign(h, keyType, packet, grow) && t != TAG_RESERVED_SPACE
    ensures Count(SignedHeader(h, keyType, packet, grow).entries, t) == CountAfter(Count(h.entries, t), keyType, t)
  {
    hide CanRun, Run, SetOrAdd, ItemsWith, CanAllocate, HasData, PointerGoesStale;
    SigningInTwoSteps(h, keyType, packet, grow);
    var stripped, tag := Stripped(h, keyType, grow), SignatureTag(keyType);
    StrippedItems(h, keyType, grow, t);
    CanSetHasTrailerSize(stripped, tag, FORMAT_BINARY, packet);
    SetOrAddItemsWith(stripped, tag, FORMAT_BINARY, |packet|, packet, grow, t);
  }

  // What signing makes of the items of each tag. The first item of the deleted tags is gone. The
  // signature is the first item of its tag, unless it is lost; then the items of its tag are as
  // they were. Nothing else changes, except that a lost signature may hit its neighbour.
  lemma SignedItems(h: Header, keyType: KeyType, packet: bytes, grow: Growth, t: u32)
    requires Framed(h) && |h.entries| < 0x1000_0000 && CanSign(h, keyType, packet, grow)
    requires t != TAG_RESERVED_SPACE
    ensures var left, after := ItemsLeft(h, keyType, t),
                               ItemsWith(SignedHeader(h, keyType, packet, grow).entries, t);
            && (t == SignatureTag(keyType) ==>
                  after == if SignatureIsLost(h, keyType, packet) then left
                           else [Item(FORMAT_BINARY, |packet|, packet)] + Tail(left))
            && (t != SignatureTag(keyType) ==>
                  after == left || (HitsNeighbour(h, keyType, packet) && t == Neighbour(h, keyType).tag))
  {
    hide CanRun, Run, SetOrAdd, ItemsWith, CanAllocate, HasData, PointerGoesStale, SignatureIsLost, Framed, StruckTag;
    hide Staying;
    SigningInTwoSteps(h, keyType, packet, grow);
    var stripped, tag := Stripped(h, keyType, grow), SignatureTag(keyType);
    StrippedItems(h, keyType, grow, t);
    LostIffStale(h, keyType, packet, grow);
    CanSetHasTrailerSize(stripped, tag, FORMAT_BINARY, packet);
    SetOrAddItemsWith(stripped, tag, FORMAT_BINARY, |packet|, packet, grow, t);
  }

  // The signature that is found afterwards is the new one exactly if it is not lost.
  lemma SignedSignature(h: Header, keyType: KeyType, packet: bytes, grow: Growth)
    requires Framed(h) && |h.entries| < 0x1000_0000 && CanSign(h, keyType, packet, grow)
    ensures var h', tag, item := SignedHeader(h, keyType, packet, grow), SignatureTag(keyType),
                                 Item(FORMAT_BINARY, |packet|, packet);
            && (ItemOf(h', tag) == Some(item) <==> !SignatureIsLost(h, keyType, packet))
            && (SignatureIsLost(h, keyType, packet) ==> ItemOf(h', tag) == ItemOf(h, tag))
  {
    hide CanRun, Run, ItemsWith, Framed, ItemOf, SignatureIsLost;
    var h', tag := SignedHeader(h, keyType, packet, grow), SignatureTag(keyType);
    SignedItems(h, keyType, packet, grow, tag);
    ItemIsFirst(h, tag);
    ItemIsFirst(h', tag);
    if SignatureIsLost(h, keyType, packet) {
      LostWasThere(h, keyType, packet);
    }
  }

  // A signature that is lost is longer than the one it should replace.
  lemma LostWasThere(h: Header, keyType: KeyType, packet: bytes)
    requires !keyType.OtherKey? && SignatureIsLost(h, keyType, packet)
    ensures ItemOf(h, SignatureTag(keyType)).Some? && |ItemOf(h, SignatureTag(keyType)).value.payload| < |packet|
  {
    hide ItemsWith, Staying, EndsWith, IsAtEnd, HasReservation, IsShifted;
    var rest, tag := Staying(h.entries, keyType), SignatureTag(keyType);
    StayingItems(h.entries, keyType, tag);
    FirstItem(rest, tag);
    FirstItem(h.entries, tag);
  }

  lemma StayingItems(entries: seq<Entry>, keyType: KeyType, t: u32)
    requires !keyType.OtherKey? && t !in DeletedTags(keyType)
    ensures ItemsWith(Staying(entries, keyType), t) == ItemsWith(entries, t)
  {
    hide ItemsWith;
    LeftOfOthers(entries, DeletionsFor(keyType), t);
  }

  // ----- GetSignatureVersions

  predicate HasV3(h: Header) {
    IndexOf(h.entries, TAG_PGP) >= 0 || IndexOf(h.entries, TAG_GPG) >= 0
  }

  predicate HasV4(h: Header) {
    IndexOf(h.entries, TAG_RSA_HEADER) >= 0 || IndexOf(h.entries, TAG_DSA_HEADER) >= 0
  }

  predicate HasV6(h: Header) {
    IndexOf(h.entries, TAG_OPENPGP) >= 0
  }

  lemma VersionsByCount(h: Header)
    ensures HasV3(h) <==> Count(h.entries, TAG_PGP) > 0 || Count(h.entries, TAG_GPG) > 0
    ensures HasV4(h) <==> Count(h.entries, TAG_RSA_HEADER) > 0 || Count(h.entries, TAG_DSA_HEADER) > 0
    ensures HasV6(h) <==> Count(h.entries, TAG_OPENPGP) > 0
  {
    hide ItemsWith;
    FirstItem(h.entries, TAG_PGP);
    FirstItem(h.entries, TAG_GPG);
    FirstItem(h.entries, TAG_RSA_HEADER);
    FirstItem(h.entries, TAG_DSA_HEADER);
    FirstItem(h.entries, TAG_OPENPGP);
  }

  // V4 is reported, V6 as before; V3 exactly if a V3 tag occurred more than once, and a V4
  // signature of the other type exactly if its tag did.
  lemma SignedVersions(h: Header, keyType: KeyType, packet: bytes, grow: Growth)
    requires CanSign(h, keyType, packet, grow)
    ensures var h', other := SignedHeader(h, keyType, packet, grow), OtherSignatureTag(keyType);
            && HasV4(h') && (HasV6(h') <==> HasV6(h))
            && (HasV3(h') <==> Count(h.entries, TAG_PGP) > 1 || Count(h.entries, TAG_GPG) > 1)
            && (Count(h'.entries, other) > 0 <==> Count(h.entries, other) > 1)
            && Count(h'.entries, SignatureTag(keyType)) == Max(Count(h.entries, SignatureTag(keyType)), 1)
  {
    hide SignedHeader, CanSign, HasV3, HasV4, HasV6, Count;
    PacketIsShort(h, keyType, packet, grow);
    SignedCounts(h, keyType, packet, grow, TAG_PGP);
    SignedCounts(h, keyType, packet, grow, TAG_GPG);
    SignedCounts(h, keyType, packet, grow, TAG_OPENPGP);
    SignedCounts(h, keyType, packet, grow, TAG_RSA_HEADER);
    SignedCounts(h, keyType, packet, grow, TAG_DSA_HEADER);
    VersionsByCount(h);
    VersionsByCount(SignedHeader(h, keyType, packet, grow));
  }

  // ----- sorted headers

  // In a sorted header a signature is lost only to a slice that is full, when nothing is deleted.
  lemma LostWhenSorted(h: Header, keyType: KeyType, packet: bytes)
    requires Ascending(h.entries) && |h.entries| <= h.capacity && !keyType.OtherKey?
    ensures SignatureIsLost(h, keyType, packet) <==>
              && (forall t :: t in DeletedTags(keyType) ==> IndexOf(h.entries, t) < 0)
              && !HasReservation(h) && |h.entries| == h.capacity
              && NeedsAllocation(h, SignatureTag(keyType), packet)
    ensures !HitsNeighbour(h, keyType, packet)
  {
    hide IsAtEnd, EndsWith, InsertionPoint, Ascending, IndexOf;
    var rest, tag := Staying(h.entries, keyType), SignatureTag(keyType);
    StayingAscends(h.entries, DeletionsFor(keyType));
    if IndexOf(rest, tag) >= 0 {
      ShiftedTag(rest, tag);
    }
    StayingIsLess(h.entries, keyType);
  }

  lemma ShiftedTag(entries: seq<Entry>, tag: u32)
    requires Ascending(entries) && IndexOf(entries, tag) >= 0 && tag < TAG_RESERVED_SPACE
    ensures InsertionPoint(entries, TAG_RESERVED_SPACE) > IndexOf(entries, tag)
  {
  }

  lemma {:induction false} StayingAscends(entries: seq<Entry>, ops: seq<Op>)
    requires Ascending(entries)
    ensures Ascending(WithoutAll(entries, ops)) && |WithoutAll(entries, ops)| <= |entries|
    decreases |ops|
  {
    if ops != [] {
      StayingAscends(Without(entries, ops[0].tag), ops[1..]);
    }
  }

  lemma {:induction false} NothingIsLeftOut(entries: seq<Entry>, ops: seq<Op>)
    ensures |WithoutAll(entries, ops)| <= |entries|
    ensures |WithoutAll(entries, ops)| == |entries| <==>
              forall i :: 0 <= i < |ops| ==> IndexOf(entries, ops[i].tag) < 0
    ensures |WithoutAll(entries, ops)| == |entries| ==> WithoutAll(entries, ops) == entries
    decreases |ops|
  {
    hide IndexOf;
    if ops != [] {
      NothingIsLeftOut(Without(entries, ops[0].tag), ops[1..]);
      if IndexOf(entries, ops[0].tag) < 0 {
        assert forall i :: 0 <= i < |ops[1..]| ==> ops[1..][i] == ops[i + 1];
        assert forall i :: 1 <= i < |ops| ==> ops[i] == ops[1..][i - 1];
      }
    }
  }

  lemma StayingIsLess(entries: seq<Entry>, keyType: KeyType)
    requires !keyType.OtherKey?
    ensures var rest := Staying(entries, keyType);
            && |rest| <= |entries| && (|rest| == |entries| ==> rest == entries)
            && ((forall t :: t in DeletedTags(keyType) ==> IndexOf(entries, t) < 0) <==> |rest| == |entries|)
  {
    hide IndexOf;
    var ops := DeletionsFor(keyType);
    NothingIsLeftOut(entries, ops);
    assert ops[0].tag in DeletedTags(keyType) && ops[1].tag in DeletedTags(keyType);
    assert ops[2].tag in DeletedTags(keyType) && ops[3].tag in DeletedTags(keyType);
  }
}
