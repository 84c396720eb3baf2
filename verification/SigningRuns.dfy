// Signing again and again: what a sequence of SignRpm calls leaves in the signature header.
module SigningRuns {
  import opened Bits
  import opened Headers
  import opened Layouts
  import opened Editing
  import opened HeaderMaps
  import opened Multimaps
  import opened EditorRuns
  import opened MapRuns
  import opened Signing

  datatype Signature = Signature(keyType: KeyType, packet: bytes)

  predicate CanSignAll(h: Header, signatures: seq<Signature>, grow: Growth)
    decreases |signatures|
  {
    signatures == [] ||
    (CanSign(h, signatures[0].keyType, signatures[0].packet, grow) &&
     CanSignAll(SignedHeader(h, signatures[0].keyType, signatures[0].packet, grow), signatures[1..], grow))
  }

  function SignAll(h: Header, signatures: seq<Signature>, grow: Growth): Header
    requires CanSignAll(h, signatures, grow)
    decreases |signatures|
  {
    if signatures == [] then h
    else SignAll(SignedHeader(h, signatures[0].keyType, signatures[0].packet, grow), signatures[1..], grow)
  }

  lemma SigningKeepsFrame(h: Header, keyType: KeyType, packet: bytes, grow: Growth)
    requires Framed(h) && |h.entries| < 0x1000_0000 && CanSign(h, keyType, packet, grow)
    ensures var h' := SignedHeader(h, keyType, packet, grow);
            Framed(h') && Packed(h') && |h'.entries| < 0x1000_0000
  {
    hide Framed, Packed, Run, CanRun;
    var ops := SigningOps(keyType, packet);
    RunIsFramed(h, ops, grow);
    assert Effective(h, ops[4]);
  }

  // ----- how often each tag occurs

  function KeyTypesOf(signatures: seq<Signature>): (keyTypes: seq<KeyType>)
    ensures |keyTypes| == |signatures|
  {
    seq(|signatures|, i requires 0 <= i < |signatures| => signatures[i].keyType)
  }

  predicate AllSupported(keyTypes: seq<KeyType>) {
    forall i :: 0 <= i < |keyTypes| ==> !keyTypes[i].OtherKey?
  }

  // How many signatures of these types take an entry with the tag away
  function Deleting(keyTypes: seq<KeyType>, t: u32): nat
    requires AllSupported(keyTypes)
  {
    if keyTypes == [] then 0
    else (if t in DeletedTags(keyTypes[0]) then 1 else 0) + Deleting(keyTypes[1..], t)
  }

  // How often a tag occurs in the end: each signature of another type takes one entry away, and the
  // last one is there.
  function CountAfterAll(n: nat, keyTypes: seq<KeyType>, t: u32): nat
    requires AllSupported(keyTypes) && keyTypes != []
  {
    var m := Deleting(keyTypes, t);
    if n > m then n - m else if t == SignatureTag(keyTypes[|keyTypes| - 1]) then 1 else 0
  }

  lemma {:induction false} LastDeletes(keyTypes: seq<KeyType>, t: u32)
    requires AllSupported(keyTypes) && keyTypes != [] && t in DeletedTags(keyTypes[|keyTypes| - 1])
    ensures Deleting(keyTypes, t) > 0
  {
    if |keyTypes| > 1 {
      LastDeletes(keyTypes[1..], t);
    }
  }

  // The formula is that of one signature after the other.
  lemma CountsInTurn(n: nat, keyTypes: seq<KeyType>, t: u32)
    requires AllSupported(keyTypes) && keyTypes != []
    ensures |keyTypes| == 1 ==> CountAfterAll(n, keyTypes, t) == CountAfter(n, keyTypes[0], t)
    ensures |keyTypes| > 1 ==>
              CountAfterAll(n, keyTypes, t) == CountAfterAll(CountAfter(n, keyTypes[0], t), keyTypes[1..], t)
  {
    if t in DeletedTags(keyTypes[|keyTypes| - 1]) {
      LastDeletes(keyTypes, t);
    }
    if |keyTypes| == 1 {
      assert Deleting(keyTypes[1..], t) == 0;
    } else if t in DeletedTags(keyTypes[|keyTypes| - 1]) {
      LastDeletes(keyTypes[1..], t);
    }
  }

  lemma {:induction false} AllDeleteV3(keyTypes: seq<KeyType>, t: u32)
    requires AllSupported(keyTypes) && t in {TAG_PGP, TAG_PGP5, TAG_GPG}
    ensures Deleting(keyTypes, t) == |keyTypes|
  {
    if keyTypes != [] {
      AllDeleteV3(keyTypes[1..], t);
    }
  }

  lemma {:induction false} AllAreSupported(h: Header, signatures: seq<Signature>, grow: Growth)
    requires CanSignAll(h, signatures, grow)
    ensures AllSupported(KeyTypesOf(signatures))
    decreases |signatures|
  {
    hide SignedHeader, CanSign;
    if signatures != [] {
      var s := signatures[0];
      PacketIsShort(h, s.keyType, s.packet, grow);
      AllAreSupported(SignedHeader(h, s.keyType, s.packet, grow), signatures[1..], grow);
      assert forall i :: 0 < i < |signatures| ==> KeyTypesOf(signatures)[i] == KeyTypesOf(signatures[1..])[i - 1];
    }
  }

  lemma {:induction false} SignedByAllCounts(h: Header, signatures: seq<Signature>, grow: Growth, t: u32)
    requires CanSignAll(h, signatures, grow) && signatures != [] && t != TAG_RESERVED_SPACE
    ensures AllSupported(KeyTypesOf(signatures))
    ensures Count(SignAll(h, signatures, grow).entries, t) ==
            CountAfterAll(Count(h.entries, t), KeyTypesOf(signatures), t)
    decreases |signatures|
  {
    hide Count, SignedHeader, CanSign, CountAfterAll, CountAfter;
    AllAreSupported(h, signatures, grow);
    var s, keyTypes := signatures[0], KeyTypesOf(signatures);
    SignedCounts(h, s.keyType, s.packet, grow, t);
    CountsInTurn(Count(h.entries, t), keyTypes, t);
    if |signatures| > 1 {
      assert keyTypes[1..] == KeyTypesOf(signatures[1..]);
      SignedByAllCounts(SignedHeader(h, s.keyType, s.packet, grow), signatures[1..], grow, t);
    }
  }

  // What GetSignatureVersions and a look at the V4 tags find after signatures of these types
  ghost predicate SignedBy(before: Header, after: Header, keyTypes: seq<KeyType>)
    requires AllSupported(keyTypes) && keyTypes != []
  {
    var tag, other := SignatureTag(keyTypes[|keyTypes| - 1]), OtherSignatureTag(keyTypes[|keyTypes| - 1]);
    && HasV4(after) && Count(after.entries, tag) > 0
    && (Count(after.entries, tag) + Count(after.entries, other) == 1 <==>
          && Count(before.entries, tag) <= Deleting(keyTypes, tag) + 1
          && Count(before.entries, other) <= Deleting(keyTypes, other))
    && (HasV3(after) <==>
          Count(before.entries, TAG_PGP) > |keyTypes| || Count(before.entries, TAG_GPG) > |keyTypes|)
  }

  lemma CountsTell(before: Header, after: Header, keyTypes: seq<KeyType>)
    requires AllSupported(keyTypes) && keyTypes != []
    requires forall t :: t in {TAG_RSA_HEADER, TAG_DSA_HEADER, TAG_PGP, TAG_GPG} ==>
               Count(after.entries, t) == CountAfterAll(Count(before.entries, t), keyTypes, t)
    ensures SignedBy(before, after, keyTypes)
  {
    hide Count, HasV3, HasV4, HasV6, Deleting;
    AllDeleteV3(keyTypes, TAG_PGP);
    AllDeleteV3(keyTypes, TAG_GPG);
    VersionsByCount(after);
  }

  // After any sequence of signings there is a V4 signature of the type of the last key. It is the
  // only one exactly if there were no more entries of its tag than signatures of the other type
  // and itself, and no more of the other tag than signatures of its type. V3 is reported exactly
  // if a V3 tag occurred more often than the header was signed.
  lemma OneSignatureRemains(h: Header, signatures: seq<Signature>, grow: Growth)
    requires CanSignAll(h, signatures, grow) && signatures != []
    ensures AllSupported(KeyTypesOf(signatures))
    ensures SignedBy(h, SignAll(h, signatures, grow), KeyTypesOf(signatures))
  {
    hide Count, SignAll, CanSignAll, CountAfterAll;
    AllAreSupported(h, signatures, grow);
    SignedByAllCounts(h, signatures, grow, TAG_RSA_HEADER);
    SignedByAllCounts(h, signatures, grow, TAG_DSA_HEADER);
    SignedByAllCounts(h, signatures, grow, TAG_PGP);
    SignedByAllCounts(h, signatures, grow, TAG_GPG);
    CountsTell(h, SignAll(h, signatures, grow), KeyTypesOf(signatures));
  }

  // ----- which signature is stored

  // With reserved space, or without an old signature of its kind, a signature is not lost, and
  // there is reserved space afterwards.
  lemma SigningWithReservation(h: Header, keyType: KeyType, packet: bytes, grow: Growth)
    requires CanSign(h, keyType, packet, grow)
    requires HasReservation(h) || IndexOf(h.entries, SignatureTag(keyType)) < 0
    ensures !SignatureIsLost(h, keyType, packet)
    ensures HasReservation(SignedHeader(h, keyType, packet, grow))
  {
    hide ItemsWith, CanRun, Run, SetOrAdd, CanAllocate, HasData, Staying, EndsWith, IsAtEnd;
    SigningInTwoSteps(h, keyType, packet, grow);
    var stripped, tag := Stripped(h, keyType, grow), SignatureTag(keyType);
    if HasReservation(h) {
      ReservationPreventsStale(h, SigningOps(keyType, packet), grow);
    } else {
      StrippedItems(h, keyType, grow, tag);
      StayingItems(h.entries, keyType, tag);
      FirstItem(h.entries, tag);
      FirstItem(stripped.entries, tag);
      FirstItem(Staying(h.entries, keyType), tag);
      CanSetHasTrailerSize(stripped, tag, FORMAT_BINARY, packet);
      AddingReserves(stripped, tag, FORMAT_BINARY, |packet|, packet, grow);
    }
  }

  // The signature that is stored is the last one, provided there is reserved space at the
  // outset or the first signature is a new one.
  lemma {:induction false} LastSignatureIsStored(h: Header, signatures: seq<Signature>, grow: Growth)
    requires Framed(h) && |h.entries| < 0x1000_0000 && CanSignAll(h, signatures, grow) && signatures != []
    requires HasReservation(h) || IndexOf(h.entries, SignatureTag(signatures[0].keyType)) < 0
    ensures var last := signatures[|signatures| - 1];
            && !last.keyType.OtherKey? && |last.packet| < U32_LIMIT
            && ItemOf(SignAll(h, signatures, grow), SignatureTag(last.keyType)) ==
               Some(Item(FORMAT_BINARY, |last.packet|, last.packet))
    decreases |signatures|
  {
    hide Framed, Packed, ItemOf, SignedHeader, CanRun, HasReservation, SignatureIsLost;
    var s := signatures[0];
    SigningWithReservation(h, s.keyType, s.packet, grow);
    SignedSignature(h, s.keyType, s.packet, grow);
    SigningKeepsFrame(h, s.keyType, s.packet, grow);
    if |signatures| > 1 {
      LastSignatureIsStored(SignedHeader(h, s.keyType, s.packet, grow), signatures[1..], grow);
    }
  }

  // ----- signing again with a signature of the same length

  // A header that carries the signature of a key is not laid out anew by another one of the
  // same type and length: no offset changes, nor does the size of the store.
  lemma ResigningMovesNothing(h: Header, keyType: KeyType, packet: bytes, grow: Growth)
    requires Packed(h) && CanSign(h, keyType, packet, grow)
    requires forall t :: t in DeletedTags(keyType) ==> IndexOf(h.entries, t) < 0
    requires var i := IndexOf(h.entries, SignatureTag(keyType)); i >= 0 && |h.entries[i].payload| == |packet|
    ensures var h', i := SignedHeader(h, keyType, packet, grow), IndexOf(h.entries, SignatureTag(keyType));
            h' == h.(entries := h.entries[i := h.entries[i].(count := |packet|, payload := packet)])
  {
    hide CanRun, Run, SyncLayout, Allocate, HasData, IsAtEnd;
    SigningInTwoSteps(h, keyType, packet, grow);
    NothingToDelete(h, DeletionsFor(keyType), grow);
    var i := IndexOf(h.entries, SignatureTag(keyType));
    SameLengthStaysPacked(h, i, |packet|, packet);
  }

  lemma SameLengthStaysPacked(h: Header, i: nat, count: u32, payload: bytes)
    requires Packed(h) && i < |h.entries| && |payload| == |h.entries[i].payload|
    ensures SyncLayout(WithContents(h, i, count, payload)) == WithContents(h, i, count, payload)
  {
    hide LayoutOffset, LayoutSize;
    var h' := WithContents(h, i, count, payload);
    IndexOfIs(h'.entries, TrailerTag(h.isMain), TrailerIndex(h));
    SameShapeSameLayout(h.entries, h'.entries, TrailerIndex(h));
    assert forall j :: 0 <= j < |h.entries| ==> SyncLayout(h).entries[j] == h.entries[j];
    assert SyncLayout(h').entries == h'.entries;
  }
}
