// Writing headers and files (common/rpmparser.go:907-990, 1340-1371, 1494-1513, and the writing
// half of common/serializer.go) to a writer that keeps everything it is given.
module Writing {
  import opened Bits
  import opened Utils
  import opened Words
  import opened DynamicArrays
  import opened Headers
  import opened WireFormat
  import opened Layouts
  import opened Editing
  import opened Formats
  import opened RpmFiles
  import opened Streams

  class Output {
    var data: bytes

    constructor ()
      ensures data == []
    {
      data := [];
    }

    method WriteBytes(b: bytes)
      modifies this
      ensures data == old(data) + b
    {
      data := data + b;
    }

    method WriteByte(d: byte)
      modifies this
      ensures data == old(data) + [d]
    {
      WriteBytes([d]);
    }

    method WriteShort(d: u16)
      modifies this
      ensures data == old(data) + ShortBytes(d)
    {
      WriteByte(d / 0x100);
      WriteByte(d % 0x100);
    }

    method WriteWord(d: u32)
      modifies this
      ensures data == old(data) + WordBytes(d)
    {
      WriteShort(d / 0x1_0000);
      WriteShort(d % 0x1_0000);
    }

    method WriteAlignTo8()
      modifies this
      ensures data == PadTo8(old(data))
    {
      var numBytesToWrite := CalcAlignmentByteCount(|data|, 8);
      if numBytesToWrite != 0 {
        WriteBytes(Zeros(numBytesToWrite));
      }
    }

    // io.Copy
    method CopyFrom(r: Input)
      requires r.Valid()
      modifies this, r
      ensures r.Valid() && r.pos == |r.source|
      ensures data == old(data) + old(r.Rest())
      ensures r.seen == old(r.seen).Saw(old(r.Rest()))
    {
      ghost var p, o, before := r.pos, r.seen, data;
      SawNothing(o);
      var eof := false;
      while !eof
        invariant r.Valid() && p <= r.pos && data == before + r.source[p..r.pos]
        invariant r.Consumed(p, o, r.pos - p)
        invariant eof ==> r.pos == |r.source|
        decreases !eof, |r.source| - r.pos
      {
        ghost var at := r.pos;
        var b;
        b, eof := r.Read(32768);
        r.Advanced(p, at, o, b);
        WriteBytes(b);
      }
      assert r.source[p..r.pos] == r.source[p..];
    }
  }

  // Formats are known, and no data ends at the last 32-bit address.
  ghost predicate WithinReach(h: Header) {
    KnownFormats(h.entries) && MaxEnd(NonEmpty(Pieces(h.entries))) + 1 < U32_LIMIT
  }

  // Write does not panic
  ghost predicate CanWrite(h: Header) {
    WithinReach(h) && PairwiseDisjoint(Pieces(h.entries))
  }

  // Misaligned data is an error, overlapping data a panic.
  datatype Outcome = Written | Misaligned | Overlapping

  // Entry i is the first one that does not go through; it is aligned if it fails for an overlap.
  ghost predicate FailsAt(entries: seq<Entry>, i: nat, aligned: bool)
    requires i < |entries|
  {
    && Aligned(entries[..i]) && PairwiseDisjoint(Pieces(entries[..i]))
    && (OnBoundary(entries[i].format, entries[i].offset) <==> aligned)
    && (aligned ==> !PairwiseDisjoint(Pieces(entries[..i + 1])))
  }

  method WriteEntry(w: Output, e: Entry) returns (ok: bool)
    modifies w
    ensures ok <==> OnBoundary(e.format, e.offset)
    ensures ok ==> w.data == old(w.data) + EntryBytes(e)
  {
    hide WordBytes, OnBoundary;
    BoundaryIs(e.format, e.offset);
    w.WriteWord(e.tag);
    w.WriteWord(e.format);
    if e.offset % e.Alignment() != 0 {
      return false;
    }
    w.WriteWord(e.offset);
    w.WriteWord(e.count);
    ok := true;
  }

  // Writes the index entries and collects their data, which goes through exactly if it is aligned
  // and disjoint.
  method WriteEntries(w: Output, h: Header) returns (outcome: Outcome, store: bytes)
    requires WithinReach(h)
    modifies w
    ensures outcome == Written <==> Aligned(h.entries) && PairwiseDisjoint(Pieces(h.entries))
    ensures outcome == Misaligned ==> exists i :: 0 <= i < |h.entries| && FailsAt(h.entries, i, false)
    ensures outcome == Overlapping ==> exists i :: 0 <= i < |h.entries| && FailsAt(h.entries, i, true)
    ensures outcome == Written ==>
              w.data == old(w.data) + IndexBytes(h.entries) && store == DataBytes(h.entries)
  {
    hide EntryBytes, MaxEnd, Image, WithinReach, Aligned, IndexBytes, Pieces, PairwiseDisjoint, Overlaps, Leftover;
    hide NonEmpty;
    ghost var front := w.data;
    store := [];
    var dataStoreData := new DynamicArray();
    NothingWritten(h);
    for i := 0 to |h.entries|
      invariant fresh(dataStoreData) && fresh(dataStoreData.bitmap) && dataStoreData.Valid()
      invariant dataStoreData.pieces == NonEmpty(Pieces(h.entries[..i])) && dataStoreData.leftovers == []
      invariant w.data == front + IndexBytes(h.entries[..i])
      invariant Aligned(h.entries[..i])
    {
      var e := h.entries[i];
      EntryStep(h.entries, i);
      var ok := WriteEntry(w, e);
      if !ok {
        MisalignedEntry(h.entries, i);
        return Misaligned, [];
      }
      assert front + IndexBytes(h.entries[..i]) + EntryBytes(e) == front + IndexBytes(h.entries[..i + 1]);
      PieceInReach(h, i);
      assert dataStoreData.pieces + dataStoreData.leftovers == dataStoreData.pieces;
      ok := dataStoreData.Write(e.payload, e.offset);
      if !ok {
        OverlappingEntry(h.entries, i);
        return Overlapping, [];
      }
    }
    assert h.entries[..|h.entries|] == h.entries;
    DisjointNonEmpty(Pieces(h.entries));
    store := dataStoreData.GetData();
    outcome := Written;
  }

  lemma NothingWritten(h: Header)
    ensures NonEmpty(Pieces(h.entries[..0])) == [] && IndexBytes(h.entries[..0]) == [] && Aligned(h.entries[..0])
  {
  }

  lemma EntryStep(entries: seq<Entry>, i: nat)
    requires i < |entries|
    ensures NonEmpty(Pieces(entries[..i + 1])) ==
            NonEmpty(Pieces(entries[..i]))
            + if entries[i].payload == [] then [] else [Piece(entries[i].offset, entries[i].payload)]
    ensures IndexBytes(entries[..i + 1]) == IndexBytes(entries[..i]) + EntryBytes(entries[i])
    ensures Aligned(entries[..i]) && OnBoundary(entries[i].format, entries[i].offset) ==> Aligned(entries[..i + 1])
  {
    hide EntryBytes, NonEmpty;
    assert entries[..i + 1][..i] == entries[..i];
    assert Pieces(entries[..i + 1]) == Pieces(entries[..i]) + [entries[i].AsPiece()];
    OneMorePiece(Pieces(entries[..i]), entries[i].AsPiece());
  }

  lemma OneMorePiece(pieces: seq<Piece>, piece: Piece)
    ensures NonEmpty(pieces + [piece]) == NonEmpty(pieces) + if piece.data == [] then [] else [piece]
  {
    assert (pieces + [piece])[..|pieces|] == pieces;
  }

  lemma MisalignedEntry(entries: seq<Entry>, i: nat)
    requires i < |entries| && !OnBoundary(entries[i].format, entries[i].offset)
    requires Aligned(entries[..i]) && PairwiseDisjoint(NonEmpty(Pieces(entries[..i])))
    ensures FailsAt(entries, i, false) && !Aligned(entries)
  {
    hide OnBoundary, PairwiseDisjoint, NonEmpty;
    DisjointNonEmpty(Pieces(entries[..i]));
  }

  lemma OverlappingEntry(entries: seq<Entry>, i: nat)
    requires i < |entries| && OnBoundary(entries[i].format, entries[i].offset)
    requires Aligned(entries[..i]) && PairwiseDisjoint(NonEmpty(Pieces(entries[..i])))
    requires Overlaps(NonEmpty(Pieces(entries[..i])), Piece(entries[i].offset, entries[i].payload))
    ensures FailsAt(entries, i, true) && !PairwiseDisjoint(Pieces(entries))
  {
    hide OnBoundary, NonEmpty;
    DisjointNonEmpty(Pieces(entries[..i]));
    var pieces, some := Pieces(entries), Pieces(entries[..i + 1]);
    OverlapsNonEmpty(Pieces(entries[..i]), Piece(entries[i].offset, entries[i].payload));
    var j :| 0 <= j < i && !Pieces(entries[..i])[j].DisjointFrom(Piece(entries[i].offset, entries[i].payload));
    assert !pieces[j].DisjointFrom(pieces[i]) && !some[j].DisjointFrom(some[i]);
  }

  // RpmHeader.Write: what the header prints as, unless its data is misaligned or overlaps
  method WriteHeader(w: Output, h: Header, isMain: bool) returns (outcome: Outcome)
    requires WithinReach(h)
    modifies w
    ensures outcome == Written <==> Aligned(h.entries) && PairwiseDisjoint(Pieces(h.entries))
    ensures outcome == Misaligned ==> exists i :: 0 <= i < |h.entries| && FailsAt(h.entries, i, false)
    ensures outcome == Overlapping ==> exists i :: 0 <= i < |h.entries| && FailsAt(h.entries, i, true)
    ensures outcome == Written ==>
              w.data == (if isMain then PadTo8(old(w.data)) else old(w.data)) + PrintedHeader(h)
  {
    hide WordBytes, IndexBytes, DataBytes, PadTo8, WithinReach, Aligned, PairwiseDisjoint;
    if isMain {
      w.WriteAlignTo8();
    }
    ghost var start := w.data;
    w.WriteBytes(h.magic);
    w.WriteByte(h.version);
    w.WriteBytes(h.reserved);
    w.WriteWord(h.indexEntryCount);
    w.WriteWord(h.storeSize);
    var store;
    outcome, store := WriteEntries(w, h);
    if outcome != Written {
      return;
    }
    w.WriteBytes(store);
    assert w.data == start + PrintedHeader(h);
  }

  // RpmHeader.GetData, the bytes that a signature is checked against
  method GetData(h: Header) returns (data: bytes)
    requires CanWrite(h) && Aligned(h.entries)
    ensures data == PrintedHeader(h)
  {
    hide PrintedHeader, Aligned, WithinReach, PairwiseDisjoint;
    var writer := new Output();
    var outcome := WriteHeader(writer, h, false);
    // the source panics otherwise
    assert outcome == Written;
    data := writer.data;
  }

  lemma PieceInReach(h: Header, i: nat)
    requires WithinReach(h) && i < |h.entries|
    ensures h.entries[i].payload != [] ==> h.entries[i].offset + |h.entries[i].payload| + 1 < U32_LIMIT
  {
    if h.entries[i].payload != [] {
      assert Pieces(h.entries)[i] in NonEmpty(Pieces(h.entries));
    }
  }

  method WriteLead(w: Output, lead: Lead)
    modifies w
    ensures w.data == old(w.data) + PrintedLead(lead)
  {
    hide ShortBytes;
    w.WriteBytes(lead.magic);
    w.WriteByte(lead.major);
    w.WriteByte(lead.minor);
    w.WriteShort(lead.packageType);
    w.WriteShort(lead.archNum);
    w.WriteBytes(lead.name);
    w.WriteShort(lead.osNum);
    w.WriteShort(lead.signatureType);
    w.WriteBytes(lead.reserved);
  }

  // RpmFile.Write, the payload being what is left in a reader
  method WriteRpm(w: Output, f: RpmFile, payload: Input) returns (ok: bool)
    requires CanWrite(f.signatureHeader) && CanWrite(f.mainHeader)
    requires w.data == [] && payload.Valid()
    modifies w, payload
    ensures ok <==> Aligned(f.signatureHeader.entries) && Aligned(f.mainHeader.entries)
    ensures ok ==> w.data == PrintedFile(f, old(payload.Rest()))
  {
    hide PrintedLead, PrintedHeader, Aligned, WithinReach, CalcAlignmentByteCount, PairwiseDisjoint;
    WriteLead(w, f.lead);
    assert w.data == PrintedLead(f.lead);
    var outcome := WriteHeader(w, f.signatureHeader, false);
    if outcome != Written {
      return false;
    }
    outcome := WriteHeader(w, f.mainHeader, true);
    if outcome != Written {
      return false;
    }
    w.CopyFrom(payload);
    ok := true;
  }

  // ----- what can be written

  lemma AcceptedCanBeWritten(s: bytes, at: nat, isMain: bool, grow: Growth)
    requires AcceptsHeader(s, at, isMain) && StoreSizeOf(s) + 1 < U32_LIMIT
    ensures CanWrite(ParsedHeader(s, isMain, grow))
  {
    hide PayloadSize, PrettyPrints, MaxEnd, FilledAll, IndexIn, StoreOf, AppendedCapacity, SignedCount;
    AcceptedHeader(s, at, isMain, grow);
    var entries := ParsedHeader(s, isMain, grow).entries;
    forall i | 0 <= i < |entries| ensures KnownFormat(entries[i].format) && entries[i].payload != [] {
      ShapedFormat(entries[i]);
    }
    AllNonEmpty(Pieces(entries));
  }

  lemma ShapedFormat(e: Entry)
    requires ShapeOk(e)
    ensures KnownFormat(e.format) && e.payload != []
  {
  }
}
