// The laws of the editor and of SignRpm in the numbers of the format: tags, types and sizes as they
// stand in a file.
module SigningLaws {
  import opened Bits
  import opened Headers
  import opened WireFormat
  import opened Editing
  import opened HeaderMaps
  import opened Multimaps
  import opened EditorRuns
  import opened MapRuns
  import opened RpmFiles
  import opened HeaderLaws
  import opened FileLaws
  import opened Signing
  import opened SignedFiles

  // ----- the editor

  // The trailer and the reserved space are the entries with tags 62 and 1008; in a main header the
  // trailer has tag 63.
  lemma TagsOfEditor(h: Header, tag: u32)
    ensures OwnedByEditor(tag) <==> tag == 62 || tag == 1008
    ensures TrailerIndex(h) == IndexOf(h.entries, if h.isMain then 63 else 62)
    ensures HasReservation(h) <==> !Lacks(h.entries, 1008)
  {
    FindIsFirst(h.entries, 1008);
  }

  // What every run keeps: types from 1 to 9, payloads, counts, and a first trailer of 16 bytes whose
  // region covers all entries.
  lemma IntactInNumbers(h: Header)
    ensures Intact(h) <==>
              && !h.isMain && h.indexEntryCount == |h.entries| <= h.capacity
              && (forall i :: 0 <= i < |h.entries| ==> 1 <= h.entries[i].format <= 9 && h.entries[i].payload != [])
              && (forall i: nat :: IsFirst(h.entries, 62, i) ==>
                    var p := h.entries[i].payload;
                    |p| == 16 && IsTrailer(p) && RegionEntries(p) == |h.entries|)
              && (h.signedCount.Some? ==> !Lacks(h.entries, 62) && h.signedCount.value == |h.entries|)
  {
    hide TrailerWordsOk, RegionCount, IsTrailer, RegionEntries, IndexOf;
    var t := IndexOf(h.entries, 62);
    FindIsFirst(h.entries, 62);
    if t >= 0 {
      TrailerIs(h.entries[t].payload);
    }
  }

  // Reserved space as the editor leaves it
  lemma ReservationInNumbers(h: Header)
    ensures GoodReservation(h) <==>
              exists i: nat :: IsFirst(h.entries, 1008, i) && h.entries[i].format == 7
                && h.entries[i].count == |h.entries[i].payload| > 0
  {
    hide IndexOf;
    FindIsFirst(h.entries, 1008);
    if HasReservation(h) {
      assert IsFirst(h.entries, 1008, IndexOf(h.entries, 1008));
    }
  }

  // Where the data of an entry ends, in 32 bits
  function EndOf(e: Entry): nat {
    (e.offset + |e.payload|) % 0x1_0000_0000
  }

  lemma EndIs(e: Entry)
    ensures e.EndOffset() == EndOf(e)
  {
  }

  // An entry is at the end if its tag is that of the entry that ends last, the trailer not counted; of
  // several it is the first.
  lemma AtEndMeans(h: Header, tag: u32)
    ensures var trailer := IndexOf(h.entries, if h.isMain then 63 else 62);
            IsAtEnd(h, tag) <==>
              exists i :: 0 <= i < |h.entries| && EndsLast(h.entries, trailer, i) && h.entries[i].tag == tag
  {
    hide IndexOf, EndOf, Entry.EndOffset;
    var trailer := TrailerIndex(h);
    assert trailer == IndexOf(h.entries, if h.isMain then 63 else 62);
    forall j | 0 <= j < |h.entries| ensures h.entries[j].EndOffset() == EndOf(h.entries[j]) {
      EndIs(h.entries[j]);
    }
    var last := LastByEnd(h.entries, trailer, |h.entries|);
    if last >= 0 {
      assert EndsLast(h.entries, trailer, last);
    }
  }

  predicate EndsLast(entries: seq<Entry>, trailer: int, i: nat)
    requires i < |entries|
  {
    && i != trailer && EndOf(entries[i]) > 0
    && (forall j :: 0 <= j < |entries| && j != trailer ==> EndOf(entries[j]) <= EndOf(entries[i]))
    && (forall j :: 0 <= j < i && j != trailer ==> EndOf(entries[j]) < EndOf(entries[i]))
  }

  // The next suitable offset is the first place for the type behind the first of the entries with the
  // largest offset, the trailer not counted.
  lemma NextOffsetMeans(h: Header, format: u32, i: nat)
    requires var trailer := IndexOf(h.entries, if h.isMain then 63 else 62);
             && i < |h.entries| && i != trailer && h.entries[i].offset + |h.entries[i].payload| + 8 < U32_LIMIT
             && (forall j :: 0 <= j < |h.entries| && j != trailer ==> h.entries[j].offset <= h.entries[i].offset)
             && (forall j :: 0 <= j < i && j != trailer ==> h.entries[j].offset < h.entries[i].offset)
    ensures IsNextPlace(format, h.entries[i].offset + |h.entries[i].payload|, FindNextSuitablePayloadOffset(h, format))
  {
    hide IndexOf, IsNextPlace;
    var end := h.entries[i].EndOffset();
    assert LastByOffset(h.entries, TrailerIndex(h), |h.entries|) == i;
    PaddingInNumbers(end, format);
  }

  // ----- SignRpm

  // V3 signatures have the tags 1002 and 1005, V4 signatures 267 and 268, V6 signatures 278.
  lemma VersionsInNumbers(h: Header)
    ensures HasV3(h) <==> exists e :: e in h.entries && (e.tag == 1002 || e.tag == 1005)
    ensures HasV4(h) <==> exists e :: e in h.entries && (e.tag == 267 || e.tag == 268)
    ensures HasV6(h) <==> exists e :: e in h.entries && e.tag == 278
  {
    FindIsFirst(h.entries, 1002);
    FindIsFirst(h.entries, 1005);
    FindIsFirst(h.entries, 267);
    FindIsFirst(h.entries, 268);
    FindIsFirst(h.entries, 278);
  }

  // SignRpm fails for a key that is neither RSA nor DSA, or if no signature can be made. With an RSA
  // key, the first item with tag 268 is then the signature, of type 7 and with its length as its count,
  // unless it is lost, and the first items with tags 267, 1002, 1005 and 1006 are gone; with a DSA key
  // 267 and 268 change places. All else is as it was, save the reserved space and an entry that a lost
  // signature hits.
  lemma SignRpmLaw(f: RpmFile, key: PrivateKey, signer: Signer, grow: Growth)
    requires CanSignFile(f, key, signer, grow)
    requires Framed(f.signatureHeader) && |f.signatureHeader.entries| < 0x1000_0000
    ensures var signed, signature := SignedFile(f, key, signer, grow), signer(key, f.digested);
            && (signed.Some? <==> (key.keyType.RSA? || key.keyType.DSA?) && signature.Some?)
            && (signed.Some? ==>
                  var h, h', packet := f.signatureHeader, signed.value.signatureHeader, signature.value;
                  var own, other := if key.keyType.RSA? then 268 else 267, if key.keyType.RSA? then 267 else 268;
                  && signed.value == f.(signatureHeader := h') && |packet| < U32_LIMIT
                  && ItemsWith(h'.entries, own) ==
                     (if SignatureIsLost(h, key.keyType, packet) then ItemsWith(h.entries, own)
                      else [Item(7, |packet|, packet)] + Tail(ItemsWith(h.entries, own)))
                  && forall t: u32 :: t != own && t != 1008 && !IsHit(h, key.keyType, packet, t) ==>
                       var before, after := ItemsWith(h.entries, t), ItemsWith(h'.entries, t);
                       after == if t in {other, 1002, 1005, 1006} then Tail(before) else before)
  {
    hide CanSign, SignedHeader, ItemsWith, Framed, SignatureIsLost, HitsNeighbour, Neighbour, Tail;
    var h, signature := f.signatureHeader, SignatureOf(f, key, signer);
    if signature.Some? {
      var packet := signature.value;
      PacketIsShort(h, key.keyType, packet, grow);
      forall t: u32 | t != 1008
        ensures var left, after := ItemsLeft(h, key.keyType, t),
                                   ItemsWith(SignedHeader(h, key.keyType, packet, grow).entries, t);
                if t == SignatureTag(key.keyType)
                then after == if SignatureIsLost(h, key.keyType, packet) then left
                              else [Item(FORMAT_BINARY, |packet|, packet)] + Tail(left)
                else after == left || IsHit(h, key.keyType, packet, t)
      {
        SignedItems(h, key.keyType, packet, grow, t);
      }
    }
  }

  predicate IsHit(h: Header, keyType: KeyType, packet: bytes, t: u32)
    requires !keyType.OtherKey?
  {
    HitsNeighbour(h, keyType, packet) && t == Neighbour(h, keyType).tag
  }

  // In a sorted header a signature is lost exactly if none of the others is there, nothing is reserved,
  // the slice is full, and the packet is longer than the old one, which does not end last; and it hits
  // nothing.
  lemma LostInNumbers(h: Header, keyType: KeyType, packet: bytes)
    requires Ascending(h.entries) && |h.entries| <= h.capacity && (keyType.RSA? || keyType.DSA?)
    ensures var own, other := if keyType.RSA? then 268 else 267, if keyType.RSA? then 267 else 268;
            SignatureIsLost(h, keyType, packet) <==>
              && Lacks(h.entries, other) && Lacks(h.entries, 1002) && Lacks(h.entries, 1005)
              && Lacks(h.entries, 1006) && Lacks(h.entries, 1008) && |h.entries| == h.capacity
              && exists i: nat :: IsFirst(h.entries, own, i) && |packet| > |h.entries[i].payload|
                                  && !IsAtEnd(h, own)
    ensures forall t: u32 :: !IsHit(h, keyType, packet, t)
  {
    hide SignatureIsLost, HitsNeighbour, Neighbour, Ascending, IndexOf, IsAtEnd, Lacks, IsFirst;
    var own, other := if keyType.RSA? then 268 else 267, if keyType.RSA? then 267 else 268;
    LostWhenSorted(h, keyType, packet);
    FindIsFirst(h.entries, own);
    FindIsFirst(h.entries, other);
    FindIsFirst(h.entries, 1002);
    FindIsFirst(h.entries, 1005);
    FindIsFirst(h.entries, 1006);
    FindIsFirst(h.entries, 1008);
    assert DeletedTags(keyType) == {other, 1002, 1005, 1006};
    if IndexOf(h.entries, own) >= 0 {
      assert IsFirst(h.entries, own, IndexOf(h.entries, own));
    }
  }
}
