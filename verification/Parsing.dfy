// The parser of common/rpmparser.go:317-375, 1140-1307, 1373-1420 and 1515-1581, reading from a
// source that may cut its bytes up in any way.
module Parsing {
  import opened Bits
  import opened Utils
  import opened Words
  import opened DynamicArrays
  import opened Headers
  import opened Editing
  import opened Allocator
  import opened EditorRuns
  import opened Formats
  import opened RpmFiles
  import opened Streams

  // ----- payloads

  method PopulatePayload(s: Input, format: u32, count: u32) returns (ok: bool, payload: bytes)
    requires s.Valid()
    modifies s
    ensures s.Valid()
    ensures ok <==> format == FORMAT_NULL || PayloadSize(old(s.Rest()), format, count).Some?
    ensures ok && format == FORMAT_NULL ==> payload == []
    ensures ok && format != FORMAT_NULL ==>
              var n := PayloadSize(old(s.Rest()), format, count).value;
              s.Consumed(old(s.pos), old(s.seen), n) && payload == old(s.Rest())[..n]
  {
    ok, payload := true, [];
    if format == FORMAT_NULL {
      return;
    } else if format == FORMAT_CHAR {
      ok, payload := s.FillBuffer(1);
    } else if format == FORMAT_INT8 {
      ok, payload := s.FillBuffer(count);
    } else if format == FORMAT_INT16 {
      ok, payload := s.FillBuffer(U32(count * 2));
    } else if format == FORMAT_INT32 {
      ok, payload := s.FillBuffer(U32(count * 4));
    } else if format == FORMAT_INT64 {
      ok, payload := s.FillBuffer(U32(count * 8));
    } else if format == FORMAT_STRING {
      ok, payload := s.ReadNullTerminatedString();
    } else if format == FORMAT_BINARY {
      ok, payload := s.FillBuffer(count);
    } else if format == FORMAT_STRING_ARRAY || format == FORMAT_I18N_STRING_ARRAY {
      ok, payload := PopulateStrings(s, count);
    } else {
      ok := false;
    }
  }

  method PopulateStrings(s: Input, count: u32) returns (ok: bool, payload: bytes)
    requires s.Valid()
    modifies s
    ensures s.Valid()
    ensures ok <==> StringsSize(old(s.Rest()), count).Some?
    ensures ok ==>
              var n := StringsSize(old(s.Rest()), count).value;
              s.Consumed(old(s.pos), old(s.seen), n) && payload == old(s.Rest())[..n]
  {
    hide StringSize, StringsSize, Observers.Saw;
    ghost var p, o, rest := s.pos, s.seen, s.Rest();
    SawNothing(o);
    assert s.source[p..p] == [];
    ok, payload := true, [];
    for idx := 0 to count
      invariant s.Valid() && s.Consumed(p, o, |payload|) && payload == s.source[p..s.pos]
      invariant StringsSize(rest, count) == (var n := StringsSize(s.Rest(), count - idx);
                                             if n.None? then None else Some(|payload| + n.value))
    {
      ghost var before := s.pos;
      StringsStep(s.Rest(), count - idx);
      var part;
      ok, part := s.ReadNullTerminatedString();
      if !ok {
        return;
      }
      s.Advanced(p, before, o, part);
      assert s.source[before..][|part|..] == s.Rest();
      payload := payload + part;
    }
    StringsStep(s.Rest(), 0);
  }

  lemma StringsStep(s: bytes, count: nat)
    ensures StringsSize(s, 0) == Some(0)
    ensures count > 0 ==>
              var first := StringSize(s);
              StringsSize(s, count) ==
              if first.None? then None
              else
                var more := StringsSize(s[first.value..], count - 1);
                if more.None? then None else Some(first.value + more.value)
  {
    hide StringSize;
  }

  lemma TrailerSlices(payload: bytes)
    ensures |payload| >= 8 ==> payload[4..][..4] == payload[4..8]
    ensures |payload| >= 12 ==> payload[8..][..4] == payload[8..12]
    ensures |payload| >= 16 ==> payload[12..][..4] == payload[12..16]
  {
  }

  // The checks of a region trailer's words
  method CheckTrailer(payload: bytes) returns (ok: bool, entryCount: u32)
    ensures ok <==> TrailerWordsOk(payload)
    ensures ok ==> entryCount == RegionCount(payload)
  {
    hide WordOf, Observers.Saw;
    var sigSer := new Input.FromArray(payload);
    entryCount := 0;
    assert sigSer.Rest() == payload;
    TrailerSlices(payload);
    var read, value := sigSer.ReadWord();
    if !read || value != 0x3e {
      return false, 0;
    }
    assert sigSer.Rest() == payload[4..];
    read, value := sigSer.ReadWord();
    if !read || value != 0x7 {
      return false, 0;
    }
    assert sigSer.Rest() == payload[8..];
    var negativeOffset;
    read, negativeOffset := sigSer.ReadWord();
    if !read {
      return false, 0;
    }
    assert sigSer.Rest() == payload[12..];
    read, value := sigSer.ReadWord();
    if !read || value != 16 {
      return false, 0;
    }
    entryCount := Negated(negativeOffset) / 16;
    ok := true;
  }

  // ----- the scan of the data store

  // What slices.SortFunc promises: all indices, by offset, entries with the same offset in any
  // order
  ghost predicate IsOrder(entries: seq<Entry>, order: seq<nat>) {
    && |order| == |entries|
    && (forall k :: 0 <= k < |order| ==> order[k] < |entries|)
    && (forall i :: 0 <= i < |entries| ==> i in order)
    && (forall a, b :: 0 <= a < b < |order| ==> order[a] != order[b])
    && (forall a, b :: 0 <= a < b < |order| && order[a] < |entries| && order[b] < |entries| ==>
          entries[order[a]].offset <= entries[order[b]].offset)
  }

  method SortByOffset(entries: seq<Entry>) returns (order: seq<nat>)
    ensures IsOrder(entries, order)
  {
    hide IsOrder;
    order := [];
    NothingIsInOrder(entries[..0]);
    for i := 0 to |entries|
      invariant IsOrder(entries[..i], order)
    {
      IndicesInRange(entries[..i], order);
      var at := PositionFor(entries, order, entries[i].offset);
      NextIsOrder(entries, i, order, at);
      order := order[..at] + [i] + order[at..];
    }
    assert entries[..|entries|] == entries;
  }

  lemma NothingIsInOrder(entries: seq<Entry>)
    requires entries == []
    ensures IsOrder(entries, [])
  {
  }

  lemma IndicesInRange(entries: seq<Entry>, order: seq<nat>)
    requires IsOrder(entries, order)
    ensures |order| == |entries| && forall k :: 0 <= k < |order| ==> order[k] < |entries|
  {
  }

  lemma NextIsOrder(entries: seq<Entry>, i: nat, order: seq<nat>, at: nat)
    requires i < |entries| && IsOrder(entries[..i], order) && at <= |order|
    requires forall k :: 0 <= k < |order| ==> order[k] < |entries|
    requires forall k :: 0 <= k < at ==> entries[order[k]].offset <= entries[i].offset
    requires at < |order| ==> entries[i].offset < entries[order[at]].offset
    ensures IsOrder(entries[..i + 1], order[..at] + [i] + order[at..])
  {
    hide IsOrder;
    IndicesInRange(entries[..i], order);
    assert entries[..i + 1] == entries[..i] + [entries[i]];
    InsertedIsOrder(entries[..i], order, entries[i], at);
  }

  method PositionFor(entries: seq<Entry>, order: seq<nat>, offset: nat) returns (at: nat)
    requires forall k :: 0 <= k < |order| ==> order[k] < |entries|
    ensures at <= |order|
    ensures forall k :: 0 <= k < at ==> entries[order[k]].offset <= offset
    ensures at < |order| ==> offset < entries[order[at]].offset
  {
    at := 0;
    while at < |order| && entries[order[at]].offset <= offset
      invariant at <= |order|
      invariant forall k :: 0 <= k < at ==> entries[order[k]].offset <= offset
    {
      at := at + 1;
    }
  }

  lemma InsertedIsOrder(entries: seq<Entry>, order: seq<nat>, e: Entry, at: nat)
    requires IsOrder(entries, order) && at <= |order|
    requires forall k :: 0 <= k < at ==> entries[order[k]].offset <= e.offset
    requires at < |order| ==> e.offset <= entries[order[at]].offset
    ensures IsOrder(entries + [e], order[..at] + [|entries|] + order[at..])
  {
    var after, n, more := order[..at] + [|entries|] + order[at..], |entries|, entries + [e];
    forall i | 0 <= i < |more| ensures i in after {
      if i < n {
        assert i in order;
        assert i in order[..at] || i in order[at..];
      }
    }
    InsertedIsSorted(entries, order, e, at, after);
  }

  lemma InsertedIsSorted(entries: seq<Entry>, order: seq<nat>, e: Entry, at: nat, after: seq<nat>)
    requires IsOrder(entries, order) && at <= |order| && |after| == |order| + 1
    requires forall k :: 0 <= k < at ==> entries[order[k]].offset <= e.offset
    requires at < |order| ==> e.offset <= entries[order[at]].offset
    requires after[at] == |entries|
    requires forall k :: 0 <= k < at ==> after[k] == order[k]
    requires forall k :: at <= k < |order| ==> order[k] == after[k + 1]
    ensures forall a, b :: 0 <= a < b < |after| ==> after[a] != after[b]
    ensures forall a, b :: 0 <= a < b < |after| && after[a] <= |entries| && after[b] <= |entries| ==>
              (entries + [e])[after[a]].offset <= (entries + [e])[after[b]].offset
  {
    forall a, b | 0 <= a < b < |after|
      ensures after[a] != after[b]
      ensures after[a] <= |entries| && after[b] <= |entries| ==>
                (entries + [e])[after[a]].offset <= (entries + [e])[after[b]].offset
    {
      var a', b' := if a < at then a else a - 1, if b < at then b else b - 1;
      if a == at {
        assert order[b'] < |entries| && entries[order[at]].offset <= entries[order[b']].offset;
      } else if b == at {
        assert order[a'] < |entries|;
      } else {
        assert order[a'] < |entries| && order[b'] < |entries|;
        assert order[a'] != order[b'];
      }
    }
  }

  // The first k entries in the order of the scan are readable and disjoint, and end at pos.
  ghost predicate Scanned(store: bytes, raw: seq<Entry>, isMain: bool, order: seq<nat>, k: nat, pos: nat) {
    && IsOrder(raw, order) && k <= |order| && pos <= |store|
    && (forall a :: 0 <= a < k ==> Readable(store, raw[order[a]], isMain))
    && (forall a, b :: 0 <= a < b < k ==> EndIn(store, raw[order[a]]) <= raw[order[b]].offset)
    && (forall a :: 0 <= a < k ==> EndIn(store, raw[order[a]]) <= pos)
    && (if k == 0 then pos == 0 else pos == EndIn(store, raw[order[k - 1]]))
  }

  function EndIn(store: bytes, e: Entry): nat {
    e.offset + |Filled(store, e).payload|
  }

  lemma ScanStep(store: bytes, raw: seq<Entry>, isMain: bool, order: seq<nat>, k: nat, pos: nat)
    requires Scanned(store, raw, isMain, order, k, pos) && k < |order|
    requires pos <= raw[order[k]].offset && Readable(store, raw[order[k]], isMain)
    ensures EndIn(store, raw[order[k]]) <= |store|
    ensures Scanned(store, raw, isMain, order, k + 1, EndIn(store, raw[order[k]]))
  {
    hide Readable, PayloadSize, Filled;
    assert EndIn(store, raw[order[k]]) <= |store| by { ReadableEnds(store, raw[order[k]], isMain); }
  }

  lemma ReadableEnds(store: bytes, e: Entry, isMain: bool)
    requires Readable(store, e, isMain)
    ensures EndIn(store, e) <= |store| && Filled(store, e).payload != []
  {
    hide PayloadSize, PrettyPrints, TrailerWordsOk;
  }

  // In an accepted store no entry starts before the previous one, in order of offsets, ends: the
  // scan cannot run into the source's panic.
  lemma AcceptedGoesForward(store: bytes, raw: seq<Entry>, isMain: bool, order: seq<nat>, k: nat, pos: nat)
    requires Scanned(store, raw, isMain, order, k, pos) && k < |order|
    requires AcceptsStore(store, raw, isMain)
    ensures pos <= raw[order[k]].offset
  {
    hide Readable, Filled, PayloadSize;
    if k > 0 {
      var i, j, filled := order[k - 1], order[k], FilledAll(store, raw);
      assert i != j && raw[i].offset <= raw[j].offset;
      ReadableEnds(store, raw[i], isMain);
      ReadableEnds(store, raw[j], isMain);
      FilledOffset(store, raw[i]);
      FilledOffset(store, raw[j]);
      assert if i < j then Apart(filled[i], filled[j]) else Apart(filled[j], filled[i]);
    }
  }

  lemma FilledOffset(store: bytes, e: Entry)
    ensures Filled(store, e) == e.(payload := Filled(store, e).payload)
  {
    hide PayloadSize;
  }

  // A scan that reaches the end has seen every entry, and none overlaps another.
  lemma ScanAccepts(store: bytes, raw: seq<Entry>, isMain: bool, order: seq<nat>, pos: nat)
    requires Scanned(store, raw, isMain, order, |order|, pos)
    ensures AcceptsStore(store, raw, isMain)
  {
    hide Readable, Filled, PayloadSize;
    var filled := FilledAll(store, raw);
    forall i | 0 <= i < |raw| ensures Readable(store, raw[i], isMain) {
      assert i in order;
    }
    forall i, j | 0 <= i < j < |raw| ensures Apart(filled[i], filled[j]) {
      assert i in order && j in order;
      var a :| 0 <= a < |order| && order[a] == i;
      var b :| 0 <= b < |order| && order[b] == j;
      FilledOffset(store, raw[i]);
      FilledOffset(store, raw[j]);
      assert EndIn(store, raw[order[a]]) <= raw[order[b]].offset || EndIn(store, raw[order[b]]) <= raw[order[a]].offset;
    }
  }

  // The position, in the order of the scan, of the last trailer among the first k entries
  function LastScannedTrailer(raw: seq<Entry>, order: seq<nat>, k: nat): (a: int)
    requires k <= |order| && forall b :: 0 <= b < k ==> order[b] < |raw|
    ensures -1 <= a < k && (a >= 0 ==> raw[order[a]].tag == TAG_HEADER_SIGNATURES)
    ensures forall b :: 0 <= b < k && raw[order[b]].tag == TAG_HEADER_SIGNATURES ==> b <= a
  {
    if k == 0 then -1
    else if raw[order[k - 1]].tag == TAG_HEADER_SIGNATURES then k - 1
    else LastScannedTrailer(raw, order, k - 1)
  }

  lemma FilledKeepsTags(store: bytes, raw: seq<Entry>)
    ensures forall j :: 0 <= j < |raw| ==>
              FilledAll(store, raw)[j].tag == raw[j].tag && FilledAll(store, raw)[j].offset == raw[j].offset
  {
    hide Filled;
    forall j | 0 <= j < |raw|
      ensures Filled(store, raw[j]).tag == raw[j].tag && Filled(store, raw[j]).offset == raw[j].offset
    {
      FilledOffset(store, raw[j]);
    }
  }

  lemma ScanPosition(raw: seq<Entry>, order: seq<nat>, i: nat) returns (b: nat)
    requires IsOrder(raw, order) && i < |raw|
    ensures b < |order| && order[b] == i
  {
    assert i in order;
    b :| 0 <= b < |order| && order[b] == i;
  }

  // No trailer was scanned only if there is none.
  lemma NoneScannedNone(store: bytes, raw: seq<Entry>, order: seq<nat>)
    requires IsOrder(raw, order)
    requires (forall b :: 0 <= b < |order| ==> order[b] < |raw|) && LastScannedTrailer(raw, order, |order|) < 0
    ensures LastTrailer(FilledAll(store, raw), |raw|) < 0
  {
    hide IsOrder, FilledAll;
    FilledKeepsTags(store, raw);
    var i := LastTrailer(FilledAll(store, raw), |raw|);
    if i >= 0 {
      var b := ScanPosition(raw, order, i);
    }
  }

  // The trailer that was scanned last has the largest offset of all.
  lemma ScannedLastIsLast(store: bytes, raw: seq<Entry>, isMain: bool, order: seq<nat>, pos: nat, a: nat)
    requires Scanned(store, raw, isMain, order, |order|, pos)
    requires (forall b :: 0 <= b < |order| ==> order[b] < |raw|) && a == LastScannedTrailer(raw, order, |order|)
    ensures LastTrailer(FilledAll(store, raw), |raw|) == order[a]
  {
    hide Scanned, FilledAll;
    assert IsOrder(raw, order) by { ScannedIsOrder(store, raw, isMain, order, pos); }
    FilledKeepsTags(store, raw);
    var i := LastTrailer(FilledAll(store, raw), |raw|);
    assert raw[order[a]].tag == TAG_HEADER_SIGNATURES;
    assert FilledAll(store, raw)[order[a]].tag == TAG_HEADER_SIGNATURES;
    var b := ScanPosition(raw, order, i);
    LaterStartsLater(store, raw, isMain, order, pos, b, a);
  }

  lemma ScannedIsOrder(store: bytes, raw: seq<Entry>, isMain: bool, order: seq<nat>, pos: nat)
    requires Scanned(store, raw, isMain, order, |order|, pos)
    ensures IsOrder(raw, order)
  {
  }

  lemma LastScannedIsLast(store: bytes, raw: seq<Entry>, isMain: bool, order: seq<nat>, pos: nat)
    requires Scanned(store, raw, isMain, order, |order|, pos)
    ensures var a, i := LastScannedTrailer(raw, order, |order|), LastTrailer(FilledAll(store, raw), |raw|);
            if a < 0 then i < 0 else i == order[a]
  {
    hide Scanned, FilledAll, LastScannedTrailer, LastTrailer, IsOrder;
    ScannedIsOrder(store, raw, isMain, order, pos);
    IndicesInRange(raw, order);
    var a := LastScannedTrailer(raw, order, |order|);
    if a < 0 {
      NoneScannedNone(store, raw, order);
    } else {
      ScannedLastIsLast(store, raw, isMain, order, pos, a);
    }
  }

  lemma LaterStartsLater(store: bytes, raw: seq<Entry>, isMain: bool, order: seq<nat>, pos: nat, a: nat, b: nat)
    requires Scanned(store, raw, isMain, order, |order|, pos) && a <= b < |order|
    ensures a < b ==> raw[order[a]].offset < raw[order[b]].offset
  {
    hide Readable, Filled, PayloadSize;
    ReadableEnds(store, raw[order[a]], isMain);
  }

  // The region after the first k entries of the scan
  function RegionSoFar(store: bytes, raw: seq<Entry>, isMain: bool, order: seq<nat>, k: nat): Option<u32>
    requires k <= |order| && forall b :: 0 <= b < k ==> order[b] < |raw|
  {
    var a := LastScannedTrailer(raw, order, k);
    if isMain || a < 0 || |Filled(store, raw[order[a]]).payload| < 12 then None
    else Some(RegionCount(Filled(store, raw[order[a]]).payload))
  }

  // The entries after the first k of the scan have been given their payloads
  function PartlyFilled(store: bytes, raw: seq<Entry>, order: seq<nat>, k: nat): (entries: seq<Entry>)
    requires k <= |order|
    ensures |entries| == |raw|
  {
    seq(|raw|, i requires 0 <= i < |raw| => if i in order[..k] then Filled(store, raw[i]) else raw[i])
  }

  lemma FillStep(store: bytes, raw: seq<Entry>, order: seq<nat>, k: nat)
    requires IsOrder(raw, order) && k < |order|
    ensures PartlyFilled(store, raw, order, k)[order[k]] == raw[order[k]]
    ensures PartlyFilled(store, raw, order, k + 1) ==
            PartlyFilled(store, raw, order, k)[order[k] := Filled(store, raw[order[k]])]
  {
    hide Filled;
    assert order[..k + 1] == order[..k] + [order[k]];
    assert forall a :: 0 <= a < k ==> order[..k][a] == order[a] != order[k];
  }

  lemma NullHasNoSize(s: bytes, count: u32)
    ensures PayloadSize(s, FORMAT_NULL, count) == None
  {
  }

  // Reads the payload of one entry, skipping the padding in front of it.
  method ReadEntry(reader: Input, e: Entry, isMain: bool) returns (ok: bool, payload: bytes, entryCount: Option<u32>)
    requires reader.Valid() && reader.Whole()
    modifies reader
    ensures reader.Valid()
    ensures ok <==> old(reader.pos) <= e.offset && Readable(reader.source, e, isMain)
    ensures ok ==> reader.pos == EndIn(reader.source, e) && e.(payload := payload) == Filled(reader.source, e)
    ensures ok ==> entryCount == if isMain || e.tag != TAG_HEADER_SIGNATURES then None else Some(RegionCount(payload))
    ensures ok && !isMain && e.tag == TAG_HEADER_SIGNATURES ==> |payload| >= 16
  {
    hide PayloadSize, PrettyPrints, RegionCount;
    payload, entryCount := [], None;
    if reader.pos > e.offset {
      return false, payload, entryCount;
    }
    if reader.pos < e.offset {
      reader.WholeReadsAreFull(reader.pos, e.offset - reader.pos);
      ok := reader.ReadAhead(e.offset - reader.pos);
      if !ok {
        return;
      }
    }
    NullHasNoSize(reader.Rest(), e.count);
    ok, payload := PopulatePayload(reader, e.format, e.count);
    if !ok {
      return;
    }
    // the log message with the entry's value panics on what cannot be printed
    if !PrettyPrints(e.format, e.count, payload) || payload == [] {
      return false, payload, entryCount;
    }
    if !isMain && e.tag == TAG_HEADER_SIGNATURES {
      var n;
      ok, n := CheckTrailer(payload);
      entryCount := Some(n);
    }
  }

  // Reads the payloads in the order of their offsets.
  method ScanStore(store: bytes, raw: seq<Entry>, isMain: bool)
    returns (ok: bool, entries: seq<Entry>, signedCount: Option<u32>)
    ensures ok <==> AcceptsStore(store, raw, isMain)
    ensures ok ==> entries == FilledAll(store, raw) && signedCount == SignedCount(entries, isMain)
  {
    hide AcceptsStore, Scanned, RegionCount, FilledAll, SignedCount, RegionSoFar, Readable, Filled;
    var order := SortByOffset(raw);
    IndicesInRange(raw, order);
    var reader := new Input.FromArray(store);
    entries, signedCount := raw, None;
    assert PartlyFilled(store, raw, order, 0) == raw;
    ScanStarts(store, raw, isMain, order);
    for k := 0 to |order|
      invariant reader.Valid() && reader.source == store && reader.Whole()
      invariant Scanned(store, raw, isMain, order, k, reader.pos)
      invariant entries == PartlyFilled(store, raw, order, k)
      invariant signedCount == RegionSoFar(store, raw, isMain, order, k)
    {
      FillStep(store, raw, order, k);
      var e := entries[order[k]];
      ghost var before := reader.pos;
      var payload, entryCount;
      ok, payload, entryCount := ReadEntry(reader, e, isMain);
      if !ok {
        Refused(store, raw, isMain, order, k, before);
        return;
      }
      entries := entries[order[k] := e.(payload := payload)];
      if entryCount.Some? {
        signedCount := entryCount;
      }
      RegionStep(store, raw, isMain, order, k);
      ScanStep(store, raw, isMain, order, k, before);
    }
    ScanEnds(store, raw, isMain, order, reader.pos);
    ok := true;
  }

  lemma Refused(store: bytes, raw: seq<Entry>, isMain: bool, order: seq<nat>, k: nat, pos: nat)
    requires Scanned(store, raw, isMain, order, k, pos) && k < |order|
    requires pos > raw[order[k]].offset || !Readable(store, raw[order[k]], isMain)
    ensures !AcceptsStore(store, raw, isMain)
  {
    hide Readable, Filled;
    if Readable(store, raw[order[k]], isMain) && AcceptsStore(store, raw, isMain) {
      AcceptedGoesForward(store, raw, isMain, order, k, pos);
    }
  }

  lemma ScanStarts(store: bytes, raw: seq<Entry>, isMain: bool, order: seq<nat>)
    requires IsOrder(raw, order)
    ensures Scanned(store, raw, isMain, order, 0, 0)
    ensures RegionSoFar(store, raw, isMain, order, 0) == None
  {
  }

  lemma RegionStep(store: bytes, raw: seq<Entry>, isMain: bool, order: seq<nat>, k: nat)
    requires IsOrder(raw, order) && k < |order|
    ensures var payload := Filled(store, raw[order[k]]).payload;
            RegionSoFar(store, raw, isMain, order, k + 1) ==
            if isMain || raw[order[k]].tag != TAG_HEADER_SIGNATURES then RegionSoFar(store, raw, isMain, order, k)
            else if |payload| < 12 then None else Some(RegionCount(payload))
  {
    hide Filled, RegionCount;
  }

  lemma ScanEnds(store: bytes, raw: seq<Entry>, isMain: bool, order: seq<nat>, pos: nat)
    requires Scanned(store, raw, isMain, order, |order|, pos)
    ensures AcceptsStore(store, raw, isMain)
    ensures PartlyFilled(store, raw, order, |order|) == FilledAll(store, raw)
    ensures RegionSoFar(store, raw, isMain, order, |order|) == SignedCount(FilledAll(store, raw), isMain)
  {
    hide Filled, RegionCount, Readable, LastScannedTrailer, LastTrailer;
    ScanAccepts(store, raw, isMain, order, pos);
    LastScannedIsLast(store, raw, isMain, order, pos);
    assert order[..|order|] == order;
    forall i | 0 <= i < |raw| ensures PartlyFilled(store, raw, order, |order|)[i] == FilledAll(store, raw)[i] {
      assert i in order;
    }
  }

  // ----- headers

  method ParseIndexEntry(s: Input) returns (ok: bool, e: Entry)
    requires s.Valid()
    modifies s
    ensures s.Valid()
    ensures ok <==> 16 <= |old(s.Rest())|
    ensures ok ==> s.Consumed(old(s.pos), old(s.seen), 16) && e == EntryOf(old(s.Rest())[..16])
  {
    hide WordOf, Observers.Saw;
    ghost var p, o, rest := s.pos, s.seen, s.Rest();
    SawNothing(o);
    e := Entry(0, 0, 0, 0, []);
    var read, tag := s.ReadWord();
    if !read { return false, e; }
    ghost var o1 := s.seen;
    var format;
    read, format := s.ReadWord();
    if !read { return false, e; }
    s.ConsumedThen(p, o, 4, o1, 4);
    ghost var o2 := s.seen;
    var offset;
    read, offset := s.ReadWord();
    if !read { return false, e; }
    s.ConsumedThen(p, o, 8, o2, 4);
    ghost var o3 := s.seen;
    var count;
    read, count := s.ReadWord();
    if !read { return false, e; }
    s.ConsumedThen(p, o, 12, o3, 4);
    WordsOf(rest);
    return true, Entry(tag, format, offset, count, []);
  }

  lemma WordsOf(rest: bytes)
    requires |rest| >= 16
    ensures rest[..16][..4] == rest[..4] && rest[..16][4..8] == rest[4..][..4]
    ensures rest[..16][8..12] == rest[8..][..4] && rest[..16][12..16] == rest[12..][..4]
  {
  }

  lemma SliceOfFront(b: bytes, n: nat, i: nat, j: nat)
    requires i <= j <= n <= |b|
    ensures b[..n][i..j] == b[i..j]
  {
  }

  lemma FrontOfRest(b: bytes, i: nat, n: nat)
    requires i + n <= |b|
    ensures b[i..][..n] == b[i..i + n]
  {
  }

  method ParseIndex(s: Input, n: nat) returns (ok: bool, entries: seq<Entry>)
    requires s.Valid()
    modifies s
    ensures s.Valid()
    ensures ok <==> 16 * n <= |old(s.Rest())|
    ensures ok ==> s.Consumed(old(s.pos), old(s.seen), 16 * n) && entries == IndexOfBytes(old(s.Rest())[..16 * n], n)
  {
    hide EntryOf, Observers.Saw;
    ghost var p, o, rest := s.pos, s.seen, s.Rest();
    SawNothing(o);
    assert s.source[p..p] == [];
    entries := [];
    for i := 0 to n
      invariant s.Valid() && s.Consumed(p, o, 16 * i) && |entries| == i
      invariant forall j :: 0 <= j < i ==> entries[j] == EntryOf(rest[16 * j..16 * j + 16])
    {
      ghost var middle := s.seen;
      assert s.Rest() == rest[16 * i..];
      var e;
      ok, e := ParseIndexEntry(s);
      if !ok {
        return;
      }
      s.ConsumedThen(p, o, 16 * i, middle, 16);
      FrontOfRest(rest, 16 * i, 16);
      entries := entries + [e];
    }
    ok := true;
    forall j | 0 <= j < n ensures rest[..16 * n][16 * j..16 * j + 16] == rest[16 * j..16 * j + 16] {
      SliceOfFront(rest, 16 * n, 16 * j, 16 * j + 16);
    }
  }

  // The fields in front of the index entries
  method ParsePreamble(s: Input) returns (ok: bool, magic: bytes, version: byte, reserved: bytes, count: u32, size: u32)
    requires s.Valid()
    modifies s
    ensures s.Valid()
    ensures ok <==> 16 <= |old(s.Rest())| && old(s.Rest())[..3] == HEADER_MAGIC
    ensures ok ==>
              var rest := old(s.Rest());
              && s.Consumed(old(s.pos), old(s.seen), 16)
              && magic == rest[..3] && version == rest[3] && reserved == rest[4..8]
              && count == EntryCountOf(rest) && size == StoreSizeOf(rest)
  {
    hide WordOf, Observers.Saw;
    ghost var p, o, rest := s.pos, s.seen, s.Rest();
    version, reserved, count, size := 0, [], 0, 0;
    ok, magic := s.FillBuffer(3);
    if !ok || magic != HEADER_MAGIC {
      ok := false;
      return;
    }
    ghost var o1 := s.seen;
    ok, version := s.ReadByte();
    if !ok { return; }
    s.ConsumedThen(p, o, 3, o1, 1);
    ghost var o2 := s.seen;
    ok, reserved := s.FillBuffer(4);
    if !ok { return; }
    s.ConsumedThen(p, o, 4, o2, 4);
    ghost var o3 := s.seen;
    ok, count := s.ReadWord();
    if !ok { return; }
    s.ConsumedThen(p, o, 8, o3, 4);
    ghost var o4 := s.seen;
    ok, size := s.ReadWord();
    if !ok { return; }
    s.ConsumedThen(p, o, 12, o4, 4);
    TrailerSlices(rest);
  }

  lemma HeaderPieces(rest: bytes)
    requires |rest| >= 16
    ensures HeaderEnd(rest) <= |rest| <==>
              16 * EntryCountOf(rest) <= |rest[16..]| && StoreSizeOf(rest) <= |rest[StoreStart(rest)..]|
    ensures HeaderEnd(rest) <= |rest| ==>
              rest[16..][..16 * EntryCountOf(rest)] == rest[16..StoreStart(rest)]
              && rest[StoreStart(rest)..][..StoreSizeOf(rest)] == StoreOf(rest)
  {
    hide EntryCountOf, StoreSizeOf;
  }

  // A header from its magic number to the end of its data store
  method ParseHeaderBody(s: Input, isMain: bool, grow: Growth) returns (ok: bool, h: Header)
    requires s.Valid()
    modifies s
    ensures s.Valid()
    ensures var rest := old(s.Rest());
            ok <==> |rest| >= 16 && rest[..3] == HEADER_MAGIC && HeaderEnd(rest) <= |rest|
                    && AcceptsStore(StoreOf(rest), IndexIn(rest), isMain)
    ensures ok ==>
              var rest := old(s.Rest());
              s.Consumed(old(s.pos), old(s.seen), HeaderEnd(rest)) && h == ParsedHeader(rest, isMain, grow)
  {
    hide AcceptsStore, FilledAll, SignedCount, AppendedCapacity, IndexOfBytes, EntryCountOf, StoreSizeOf, Observers.Saw;
    ghost var p, o, rest := s.pos, s.seen, s.Rest();
    h := Header(isMain, [], 0, [], 0, 0, [], 0, None);
    var magic, version, reserved, count, size;
    ok, magic, version, reserved, count, size := ParsePreamble(s);
    if !ok { return; }
    HeaderPieces(rest);
    ghost var o1 := s.seen;
    assert s.Rest() == rest[16..];
    var raw;
    ok, raw := ParseIndex(s, count);
    if !ok { return; }
    s.ConsumedThen(p, o, 16, o1, 16 * (count as nat));
    ghost var o2 := s.seen;
    assert s.Rest() == rest[StoreStart(rest)..];
    var store;
    ok, store := s.FillBuffer(size);
    if !ok { return; }
    s.ConsumedThen(p, o, StoreStart(rest), o2, size);
    var entries, signedCount;
    ok, entries, signedCount := ScanStore(store, raw, isMain);
    if !ok { return; }
    h := Header(isMain, magic, version, reserved, count, size, entries, AppendedCapacity(|entries|, grow), signedCount);
  }

  // The digests that are put on top of a reader, and taken off again, have absorbed exactly
  // what was read in between.
  lemma DigestsOnTop(o: Observers, b: bytes)
    ensures var pushed := o.(digests := o.digests + [[], [], []]);
            var after := pushed.Saw(b);
            && after.(digests := after.digests[..|o.digests|]) == o.Saw(b)
            && after.digests[|o.digests|..] == [b, b, b]
  {
    var pushed := o.(digests := o.digests + [[], [], []]);
    var after := pushed.Saw(b);
    assert after.digests[..|o.digests|] == o.Saw(b).digests;
    assert [] + b == b;
    assert after.digests[|o.digests|..] == [b, b, b];
  }

  // parseHeader: for the main header, also what its MD5, SHA1 and SHA256 digests have absorbed
  method ParseHeader(s: Input, isMain: bool, grow: Growth) returns (ok: bool, h: Header, digests: seq<bytes>)
    requires s.Valid()
    modifies s
    ensures s.Valid()
    ensures ok <==> AcceptsHeader(old(s.Rest()), old(s.seen.offset), isMain)
    ensures ok ==>
              var rest := old(s.Rest());
              && s.Consumed(old(s.pos), old(s.seen), HeaderLength(rest, old(s.seen.offset), isMain))
              && h == ParsedHeader(rest, isMain, grow)
              && (isMain ==> digests == [rest[..HeaderEnd(rest)], rest[..HeaderEnd(rest)], rest[..HeaderEnd(rest)]])
  {
    hide AcceptsStore, ParsedHeader, EntryCountOf, StoreSizeOf, StoreOf, IndexIn, CalcAlignmentByteCount;
    ghost var p, o, rest := s.pos, s.seen, s.Rest();
    var below := |s.seen.digests|;
    digests := [];
    if isMain {
      s.seen := s.seen.(digests := s.seen.digests + [[], [], []]);
    }
    ok, h := ParseHeaderBody(s, isMain, grow);
    if !ok {
      if isMain && |s.seen.digests| >= below {
        s.seen := s.seen.(digests := s.seen.digests[..below]);
      }
      return;
    }
    if isMain {
      DigestsOnTop(o, rest[..HeaderEnd(rest)]);
      assert s.source[p..s.pos] == rest[..HeaderEnd(rest)];
      digests := s.seen.digests[below..];
      s.seen := s.seen.(digests := s.seen.digests[..below]);
    } else {
      ghost var middle := s.seen;
      assert s.Rest() == rest[HeaderEnd(rest)..];
      ok := s.AdvanceToNext8ByteBoundary();
      if ok {
        s.ConsumedThen(p, o, HeaderEnd(rest), middle, CalcAlignmentByteCount(middle.offset, 8));
      }
    }
  }

  // ----- files

  method ParseLead(s: Input) returns (ok: bool, lead: Lead)
    requires s.Valid()
    modifies s
    ensures s.Valid()
    ensures ok <==> |old(s.Rest())| >= 96 && old(s.Rest())[..4] == LEAD_MAGIC
    ensures ok ==> s.Consumed(old(s.pos), old(s.seen), 96) && lead == ParsedLead(old(s.Rest()))
  {
    hide ShortOf, Observers.Saw;
    ghost var p, o, rest := s.pos, s.seen, s.Rest();
    lead := Lead([], 0, 0, 0, 0, [], 0, 0, []);
    var magic, major, minor, packageType, archNum;
    ok, magic, major, minor, packageType, archNum := ParseLeadFront(s);
    if !ok { return; }
    ghost var o1 := s.seen;
    assert s.Rest() == rest[10..];
    var name, osNum, signatureType, reserved;
    ok, name := s.FillBuffer(66);
    if !ok { return; }
    s.ConsumedThen(p, o, 10, o1, 66);
    ghost var o2 := s.seen;
    ok, osNum := s.ReadShort();
    if !ok { return; }
    s.ConsumedThen(p, o, 76, o2, 2);
    ghost var o3 := s.seen;
    ok, signatureType := s.ReadShort();
    if !ok { return; }
    s.ConsumedThen(p, o, 78, o3, 2);
    ghost var o4 := s.seen;
    ok, reserved := s.FillBuffer(16);
    if !ok { return; }
    s.ConsumedThen(p, o, 80, o4, 16);
    LeadSlices(rest);
    lead := Lead(magic, major, minor, packageType, archNum, name, osNum, signatureType, reserved);
  }

  // The fields of the lead in front of the name
  method ParseLeadFront(s: Input)
    returns (ok: bool, magic: bytes, major: byte, minor: byte, packageType: u16, archNum: u16)
    requires s.Valid()
    modifies s
    ensures s.Valid()
    ensures ok <==> |old(s.Rest())| >= 10 && old(s.Rest())[..4] == LEAD_MAGIC
    ensures ok ==>
              var rest := old(s.Rest());
              && s.Consumed(old(s.pos), old(s.seen), 10)
              && magic == rest[..4] && major == rest[4] && minor == rest[5]
              && packageType == ShortOf(rest[6..8]) && archNum == ShortOf(rest[8..10])
  {
    hide ShortOf, Observers.Saw;
    ghost var p, o, rest := s.pos, s.seen, s.Rest();
    major, minor, packageType, archNum := 0, 0, 0, 0;
    ok, magic := s.FillBuffer(4);
    if !ok || magic != LEAD_MAGIC {
      ok := false;
      return;
    }
    ghost var o1 := s.seen;
    ok, major := s.ReadByte();
    if !ok { return; }
    s.ConsumedThen(p, o, 4, o1, 1);
    ghost var o2 := s.seen;
    ok, minor := s.ReadByte();
    if !ok { return; }
    s.ConsumedThen(p, o, 5, o2, 1);
    ghost var o3 := s.seen;
    ok, packageType := s.ReadShort();
    if !ok { return; }
    s.ConsumedThen(p, o, 6, o3, 2);
    ghost var o4 := s.seen;
    ok, archNum := s.ReadShort();
    if !ok { return; }
    s.ConsumedThen(p, o, 8, o4, 2);
    assert rest[6..][..2] == rest[6..8] && rest[8..][..2] == rest[8..10];
  }

  lemma LeadSlices(s: bytes)
    requires |s| >= 96
    ensures s[6..][..2] == s[6..8] && s[8..][..2] == s[8..10] && s[10..][..66] == s[10..76]
    ensures s[76..][..2] == s[76..78] && s[78..][..2] == s[78..80] && s[80..][..16] == s[80..96]
  {
  }

  // ParseRPM without the check of the payload. However the source cuts up its bytes, the result
  // is the same, the reader stops at the first byte of the payload, and whatever looks on has
  // seen the bytes in front of it exactly once and in order.
  method ParseRpm(s: Input, hashes: Hashes, grow: Growth) returns (ok: bool, f: RpmFile)
    requires s.Valid() && s.pos == 0 && s.seen.offset == 0
    modifies s
    ensures s.Valid()
    ensures ok <==> AcceptsFile(s.source, hashes, grow)
    ensures ok ==> f == ParsedFile(s.source, grow) && s.Consumed(0, old(s.seen), f.payloadStart)
  {
    hide AcceptsHeader, ParsedHeader, ParsedLead, Validates, HeaderEnd, CalcAlignmentByteCount, Observers.Saw;
    ghost var o := s.seen;
    assert s.Rest() == s.source;
    var empty := Header(false, [], 0, [], 0, 0, [], 0, None);
    f := RpmFile(Lead([], 0, 0, 0, 0, [], 0, 0, []), empty, empty, [], 0);
    var read, lead := ParseLead(s);
    if !read { return false, f; }
    ghost var o1 := s.seen;
    assert s.Rest() == s.source[96..];
    var signatureHeader, mainHeader, digests;
    read, signatureHeader, digests := ParseHeader(s, false, grow);
    if !read {
      ShortSignature(s.source);
      return false, f;
    }
    AcceptedIsLongEnough(s.source[96..], 96, false);
    s.ConsumedThen(0, o, 96, o1, HeaderLength(s.source[96..], 96, false));
    ghost var o2 := s.seen;
    assert s.Rest() == s.source[MainStart(s.source)..];
    read, mainHeader, digests := ParseHeader(s, true, grow);
    if !read { return false, f; }
    AcceptedIsLongEnough(s.source[MainStart(s.source)..], MainStart(s.source), true);
    s.ConsumedThen(0, o, MainStart(s.source), o2,
                   HeaderLength(s.source[MainStart(s.source)..], MainStart(s.source), true));
    AcceptedSizes(s.source);
    DigestedSlice(s.source);
    f := RpmFile(lead, signatureHeader, mainHeader, digests[2], s.seen.offset);
    ok := Validates(f, hashes);
  }

  lemma ShortSignature(s: bytes)
    ensures AcceptsHeaders(s) ==> AcceptsHeader(s[96..], 96, false)
  {
  }

  lemma DigestedSlice(s: bytes)
    requires AcceptsHeaders(s)
    ensures |s| >= 112 && MainStart(s) + 16 <= PayloadStart(s) <= |s|
    ensures s[MainStart(s)..][..HeaderEnd(s[MainStart(s)..])] == s[MainStart(s)..PayloadStart(s)]
  {
    hide AcceptsHeader, HeaderEnd, MainStart;
    AcceptedSizes(s);
  }
}
