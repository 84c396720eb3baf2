// common/dynamicarray.go: a byte array written piecewise, in any order, where a bitmap keeps
// track of the bytes that were written already.
module DynamicArrays {
  import opened Bits
  import opened Utils
  import opened Bitmaps

  // len(p) bytes written at an offset
  datatype Piece = Piece(offset: nat, data: bytes) {
    function End(): nat {
      offset + |data|
    }

    predicate Covers(k: int) {
      offset <= k < End()
    }

    ghost predicate DisjointFrom(other: Piece) {
      forall k: nat :: !(Covers(k) && other.Covers(k))
    }
  }

  ghost predicate PairwiseDisjoint(pieces: seq<Piece>) {
    forall i, j :: 0 <= i < j < |pieces| ==> pieces[i].DisjointFrom(pieces[j])
  }

  ghost predicate Overlaps(pieces: seq<Piece>, piece: Piece) {
    exists i :: 0 <= i < |pieces| && !pieces[i].DisjointFrom(piece)
  }

  predicate Covered(pieces: seq<Piece>, k: int) {
    exists i :: 0 <= i < |pieces| && pieces[i].Covers(k)
  }

  function Max(a: nat, b: nat): nat {
    if a < b then b else a
  }

  function MaxEnd(pieces: seq<Piece>): (end: nat)
    ensures forall i :: 0 <= i < |pieces| ==> pieces[i].End() <= end
  {
    if pieces == [] then 0
    else
      var last := |pieces| - 1;
      Max(MaxEnd(pieces[..last]), pieces[last].End())
  }

  // The byte at position k after all pieces have been written, one after the other
  function ByteAt(pieces: seq<Piece>, k: int): byte {
    if pieces == [] then 0
    else
      var last := |pieces| - 1;
      if pieces[last].Covers(k) then pieces[last].data[k - pieces[last].offset]
      else ByteAt(pieces[..last], k)
  }

  function Image(pieces: seq<Piece>): bytes {
    seq(MaxEnd(pieces), k => ByteAt(pieces, k))
  }

  lemma {:induction false} ByteOfPiece(pieces: seq<Piece>, i: nat, k: nat)
    requires PairwiseDisjoint(pieces) && i < |pieces| && pieces[i].Covers(k)
    ensures ByteAt(pieces, k) == pieces[i].data[k - pieces[i].offset]
  {
    var last := |pieces| - 1;
    if i < last {
      assert pieces[i].DisjointFrom(pieces[last]);
      ByteOfPiece(pieces[..last], i, k);
    }
  }

  lemma {:induction false} ByteOutside(pieces: seq<Piece>, k: nat)
    requires !Covered(pieces, k)
    ensures ByteAt(pieces, k) == 0
  {
    if pieces != [] {
      var last := |pieces| - 1;
      assert !pieces[last].Covers(k);
      forall i | 0 <= i < last ensures !pieces[..last][i].Covers(k) {
        assert !pieces[i].Covers(k);
      }
      ByteOutside(pieces[..last], k);
    }
  }

  lemma {:induction false} MaxEndIsReached(pieces: seq<Piece>) returns (i: nat)
    requires pieces != []
    ensures i < |pieces| && pieces[i].End() == MaxEnd(pieces)
  {
    var last := |pieces| - 1;
    i := last;
    if MaxEnd(pieces[..last]) > pieces[last].End() {
      i := MaxEndIsReached(pieces[..last]);
    }
  }

  // The image of disjoint pieces holds every piece at its offset, zeros elsewhere, and ends
  // with the piece that ends last.
  lemma ImageHoldsPieces(pieces: seq<Piece>)
    requires PairwiseDisjoint(pieces)
    ensures forall i :: 0 <= i < |pieces| ==> HoldsPiece(Image(pieces), pieces[i])
    ensures forall k :: 0 <= k < |Image(pieces)| && !Covered(pieces, k) ==> Image(pieces)[k] == 0
    ensures pieces != [] ==> exists i :: 0 <= i < |pieces| && pieces[i].End() == |Image(pieces)|
  {
    forall i | 0 <= i < |pieces| ensures HoldsPiece(Image(pieces), pieces[i]) {
      forall k | pieces[i].offset <= k < pieces[i].End()
        ensures Image(pieces)[k] == pieces[i].data[k - pieces[i].offset]
      {
        ByteOfPiece(pieces, i, k);
      }
    }
    forall k | 0 <= k < |Image(pieces)| && !Covered(pieces, k) ensures Image(pieces)[k] == 0 {
      ByteOutside(pieces, k);
    }
    if pieces != [] {
      var i := MaxEndIsReached(pieces);
    }
  }

  ghost predicate HoldsPiece(data: bytes, piece: Piece) {
    piece.End() <= |data| && data[piece.offset..piece.End()] == piece.data
  }

  lemma HeldByte(pieces: seq<Piece>, data: bytes, i: nat, k: nat)
    requires PairwiseDisjoint(pieces) && i < |pieces| && pieces[i].Covers(k)
    requires HoldsPiece(data, pieces[i])
    ensures data[k] == ByteAt(pieces, k)
  {
    assert data[pieces[i].offset..pieces[i].End()][k - pieces[i].offset] == data[k];
    ByteOfPiece(pieces, i, k);
  }

  // Any bytes with these three properties are the image.
  lemma ImageIsUnique(pieces: seq<Piece>, data: bytes)
    requires PairwiseDisjoint(pieces)
    requires |data| == MaxEnd(pieces)
    requires forall i :: 0 <= i < |pieces| ==> HoldsPiece(data, pieces[i])
    requires forall k :: 0 <= k < |data| && !Covered(pieces, k) ==> data[k] == 0
    ensures data == Image(pieces)
  {
    var image := Image(pieces);
    forall k | 0 <= k < |data| ensures data[k] == image[k] {
      if Covered(pieces, k) {
        var i :| 0 <= i < |pieces| && pieces[i].Covers(k);
        HeldByte(pieces, data, i, k);
      } else {
        ByteOutside(pieces, k);
      }
    }
    assert data == image;
  }

  lemma AnyMember(pieces: seq<Piece>) returns (p: Piece)
    ensures pieces != [] ==> p in pieces
  {
    p := if pieces != [] then pieces[0] else Piece(0, []);
  }

  // The order of the writes does not matter.
  lemma ImageIgnoresOrder(pieces: seq<Piece>, others: seq<Piece>)
    requires PairwiseDisjoint(pieces) && PairwiseDisjoint(others)
    requires forall p :: p in pieces <==> p in others
    ensures Image(pieces) == Image(others)
  {
    if pieces != [] {
      assert pieces[0] in others;
      var i := MaxEndIsReached(pieces);
      var j := MaxEndIsReached(others);
      assert pieces[i] in others && others[j] in pieces;
    } else {
      var p := AnyMember(others);
    }
    assert MaxEnd(pieces) == MaxEnd(others);
    ImageHoldsPieces(pieces);
    forall j | 0 <= j < |others| ensures HoldsPiece(Image(pieces), others[j]) {
      assert others[j] in pieces;
    }
    forall k | 0 <= k < |Image(pieces)| && !Covered(others, k) ensures Image(pieces)[k] == 0 {
      forall i | 0 <= i < |pieces| ensures !pieces[i].Covers(k) {
        assert pieces[i] in others;
      }
    }
    ImageIsUnique(others, Image(pieces));
  }

  // Writing nothing has no effect.
  function NonEmpty(pieces: seq<Piece>): (kept: seq<Piece>)
    ensures |kept| <= |pieces|
    ensures forall p :: p in kept <==> p in pieces && p.data != []
  {
    if pieces == [] then []
    else
      var last := |pieces| - 1;
      assert pieces == pieces[..last] + [pieces[last]];
      NonEmpty(pieces[..last]) + if pieces[last].data == [] then [] else [pieces[last]]
  }

  lemma {:induction false} AllNonEmpty(pieces: seq<Piece>)
    requires forall i :: 0 <= i < |pieces| ==> pieces[i].data != []
    ensures NonEmpty(pieces) == pieces
  {
    if pieces != [] {
      var last := |pieces| - 1;
      AllNonEmpty(pieces[..last]);
      assert pieces == pieces[..last] + [pieces[last]];
    }
  }

  lemma OverlapsNonEmpty(pieces: seq<Piece>, piece: Piece)
    ensures Overlaps(NonEmpty(pieces), piece) <==> Overlaps(pieces, piece)
  {
    var kept := NonEmpty(pieces);
    if i :| 0 <= i < |kept| && !kept[i].DisjointFrom(piece) {
      assert kept[i] in pieces;
    }
    if i :| 0 <= i < |pieces| && !pieces[i].DisjointFrom(piece) {
      assert pieces[i] in kept;
    }
  }

  lemma DisjointWithLast(pieces: seq<Piece>, piece: Piece)
    ensures PairwiseDisjoint(pieces + [piece]) <==> PairwiseDisjoint(pieces) && !Overlaps(pieces, piece)
  {
    var all := pieces + [piece];
    if PairwiseDisjoint(all) {
      forall i, j | 0 <= i < j < |pieces| ensures pieces[i].DisjointFrom(pieces[j]) {
        assert all[i].DisjointFrom(all[j]);
      }
      forall i | 0 <= i < |pieces| ensures pieces[i].DisjointFrom(piece) {
        assert all[i].DisjointFrom(all[|pieces|]);
      }
    }
  }

  lemma {:induction false} DisjointNonEmpty(pieces: seq<Piece>)
    ensures PairwiseDisjoint(NonEmpty(pieces)) <==> PairwiseDisjoint(pieces)
  {
    hide PairwiseDisjoint, Overlaps;
    if pieces != [] {
      var front, last := pieces[..|pieces| - 1], pieces[|pieces| - 1];
      assert pieces == front + [last];
      DisjointNonEmpty(front);
      OverlapsNonEmpty(front, last);
      DisjointWithLast(front, last);
      DisjointWithLast(NonEmpty(front), last);
      EmptyOverlapsNothing(front, last);
      assert NonEmpty(pieces) == if last.data == [] then NonEmpty(front) else NonEmpty(front) + [last];
    }
  }

  lemma EmptyOverlapsNothing(pieces: seq<Piece>, piece: Piece)
    ensures piece.data == [] ==> !Overlaps(pieces, piece)
  {
  }

  // The slice behind the array holds what the pieces left there
  ghost predicate Stores(data: bytes, pieces: seq<Piece>) {
    && MaxEnd(pieces) <= |data|
    && forall k :: 0 <= k < |data| ==> data[k] == ByteAt(pieces, k)
  }

  // The bitmap marks what the pieces cover, those that hold data and those that refused writes
  // have left, and nothing else.
  ghost predicate Tracks(words: seq<word>, taken: seq<Piece>) {
    forall k: nat :: Marked(words, k) <==> Covered(taken, k)
  }

  lemma CoveredByEither(a: seq<Piece>, b: seq<Piece>, k: nat)
    ensures Covered(a + b, k) <==> Covered(a, k) || Covered(b, k)
  {
    if i :| 0 <= i < |a| && a[i].Covers(k) {
      assert (a + b)[i].Covers(k);
    }
    if i :| 0 <= i < |b| && b[i].Covers(k) {
      assert (a + b)[|a| + i].Covers(k);
    }
  }

  // A piece overlaps others exactly if they cover one of its positions.
  lemma OverlapIsCovered(pieces: seq<Piece>, piece: Piece)
    ensures Overlaps(pieces, piece) <==> exists k: nat :: piece.Covers(k) && Covered(pieces, k)
  {
    if i :| 0 <= i < |pieces| && !pieces[i].DisjointFrom(piece) {
      var k: nat :| pieces[i].Covers(k) && piece.Covers(k);
      assert Covered(pieces, k);
    }
    if k: nat :| piece.Covers(k) && Covered(pieces, k) {
      var i :| 0 <= i < |pieces| && pieces[i].Covers(k);
      assert !pieces[i].DisjointFrom(piece);
    }
  }

  // The first position of a range that some piece covers, or its end
  function FirstCovered(taken: seq<Piece>, from: nat, end: nat): (p: nat)
    requires from <= end
    ensures forall k :: from <= k < p ==> !Covered(taken, k)
    ensures from <= p <= end && (p < end ==> Covered(taken, p))
    decreases end - from
  {
    if from == end || Covered(taken, from) then from else FirstCovered(taken, from + 1, end)
  }

  // What a refused write leaves behind: its bytes in front of the 64-byte block with the first
  // position that was taken before, none if it starts in that block
  function Leftover(taken: seq<Piece>, piece: Piece): (left: Piece)
    requires Overlaps(taken, piece)
    ensures left.offset == piece.offset && left.data <= piece.data
  {
    var p := FirstCovered(taken, piece.offset, piece.End());
    Piece(piece.offset, piece.data[..StopAt(piece.offset, p) - piece.offset])
  }

  lemma SameReach(words: seq<word>, taken: seq<Piece>, piece: Piece)
    requires Tracks(words, taken) && Overlaps(taken, piece)
    ensures Reach(words, piece.offset, piece.End()) == Leftover(taken, piece).End()
  {
    OverlapIsCovered(taken, piece);
    assert FirstMarked(words, piece.offset, piece.End()) == FirstCovered(taken, piece.offset, piece.End());
  }

  // After a write the bitmap tracks what was taken before, and the piece or its leftover.
  lemma WriteKeepsTrack(before: seq<word>, after: seq<word>, taken: seq<Piece>, piece: Piece, ok: bool)
    requires Tracks(before, taken) && WriteResult(before, after, piece.offset, piece.End(), ok)
    ensures ok <==> !Overlaps(taken, piece)
    ensures var added := if ok then piece else Leftover(taken, piece);
            forall k: nat :: Marked(after, k) <==> Covered(taken, k) || added.Covers(k)
  {
    OverlapIsCovered(taken, piece);
    if !ok {
      SameReach(before, taken, piece);
    }
  }

  lemma AddedLast(pieces: seq<Piece>, leftovers: seq<Piece>, added: Piece, words: seq<word>)
    requires forall k: nat :: Marked(words, k) <==> Covered(pieces + leftovers, k) || added.Covers(k)
    ensures Tracks(words, pieces + [added] + leftovers)
    ensures Tracks(words, pieces + (leftovers + [added]))
  {
    forall k: nat
      ensures Covered(pieces + [added] + leftovers, k) <==> Covered(pieces + leftovers, k) || added.Covers(k)
      ensures Covered(pieces + (leftovers + [added]), k) <==> Covered(pieces + leftovers, k) || added.Covers(k)
    {
      assert Covered([added], k) <==> added.Covers(k) by { assert [added][0] == added; }
      CoveredByEither(pieces, leftovers, k);
      CoveredByEither(pieces + [added], leftovers, k);
      CoveredByEither(pieces, [added], k);
      CoveredByEither(pieces, leftovers + [added], k);
      CoveredByEither(leftovers, [added], k);
    }
  }

  lemma StillDisjoint(pieces: seq<Piece>, leftovers: seq<Piece>, piece: Piece)
    requires PairwiseDisjoint(pieces) && !Overlaps(pieces + leftovers, piece)
    ensures PairwiseDisjoint(pieces + [piece])
  {
    forall i | 0 <= i < |pieces| ensures pieces[i].DisjointFrom(piece) {
      assert (pieces + leftovers)[i] == pieces[i];
    }
  }

  // A refused write can make the array refuse another one that overlaps no data: 65 bytes at 0
  // are refused for the byte at 64, and leave 64 bytes behind.
  lemma LeftoverRefuses(b: byte)
    ensures var taken, refused, later := [Piece(64, [b])], Piece(0, Zeros(65)), Piece(0, [b]);
            && Overlaps(taken, refused) && Leftover(taken, refused) == Piece(0, Zeros(64))
            && !Overlaps(taken, later) && Overlaps(taken + [Leftover(taken, refused)], later)
  {
    var taken, refused, later := [Piece(64, [b])], Piece(0, Zeros(65)), Piece(0, [b]);
    assert refused.Covers(64) && taken[0].Covers(64);
    assert !taken[0].DisjointFrom(refused);
    var p := FirstCovered(taken, 0, 65);
    assert Covered(taken, 64);
    assert p == 64;
    assert Zeros(65)[..64] == Zeros(64);
    var left := Leftover(taken, refused);
    assert (taken + [left])[1].Covers(0) && later.Covers(0);
    assert !(taken + [left])[1].DisjointFrom(later);
  }

  lemma WritingStores(data: bytes, grown: bytes, pieces: seq<Piece>, piece: Piece)
    requires Stores(data, pieces)
    requires |data| <= |grown| && piece.End() <= |grown|
    requires forall k :: 0 <= k < |grown| ==> grown[k] == if k < |data| then data[k] else 0
    ensures Stores(grown[..piece.offset] + piece.data + grown[piece.End()..], pieces + [piece])
    ensures MaxEnd(pieces + [piece]) == if piece.End() > MaxEnd(pieces) then piece.End() else MaxEnd(pieces)
  {
    assert (pieces + [piece])[..|pieces|] == pieces;
    forall k | |data| <= k < |grown| ensures ByteAt(pieces, k) == 0 {
      ByteOutside(pieces, k);
    }
  }

  class DynamicArray {
    const bitmap: Bitmap
    var data: bytes
    var lastUsedOffsetExclusive: u32
    // the accepted writes that were not empty, and what the refused ones have left
    ghost var pieces: seq<Piece>
    ghost var leftovers: seq<Piece>

    ghost predicate Valid()
      reads this, bitmap
    {
      && |bitmap.data| < U32_LIMIT && |data| < U32_LIMIT
      && PairwiseDisjoint(pieces)
      && lastUsedOffsetExclusive == MaxEnd(pieces)
      && Stores(data, pieces)
      && Tracks(bitmap.data, pieces + leftovers)
    }

    constructor ()
      ensures Valid() && fresh(bitmap)
      ensures pieces == [] && leftovers == []
    {
      bitmap := new Bitmap();
      data := [];
      lastUsedOffsetExclusive := 0;
      pieces := [];
      leftovers := [];
    }

    // Refuses exactly the writes that overlap an accepted one or what a refused one has left. The
    // source fails on a write that ends at the largest 32-bit address.
    method Write(p: bytes, offset: u32) returns (ok: bool)
      requires Valid()
      requires p != [] ==> offset + |p| + 1 < U32_LIMIT
      modifies this, bitmap
      ensures Valid()
      ensures ok <==> p == [] || !Overlaps(old(pieces + leftovers), Piece(offset, p))
      ensures pieces == if ok && p != [] then old(pieces) + [Piece(offset, p)] else old(pieces)
      ensures leftovers == if ok then old(leftovers)
                           else old(leftovers) + [Leftover(old(pieces + leftovers), Piece(offset, p))]
    {
      hide PairwiseDisjoint, Overlaps, Covered, WriteResult, Tracks, Stores, Leftover, MaxEnd, Adds, Free, Marked;
      hide Reach;
      if p == [] {
        return true;
      }
      ghost var before, taken, piece := bitmap.data, pieces + leftovers, Piece(offset, p);
      ok := bitmap.Set(offset, |p|);
      WriteKeepsTrack(before, bitmap.data, taken, piece, ok);
      AddedLast(pieces, leftovers, if ok then piece else Leftover(taken, piece), bitmap.data);
      if !ok {
        leftovers := leftovers + [Leftover(taken, piece)];
        return;
      }
      StillDisjoint(pieces, leftovers, piece);
      Store(p, offset);
      pieces := pieces + [piece];
    }

    // The half of Write behind the overlap check: grow the slice and copy the bytes
    method Store(p: bytes, offset: u32)
      requires offset + |p| + 1 < U32_LIMIT && |data| < U32_LIMIT
      requires Stores(data, pieces) && lastUsedOffsetExclusive == MaxEnd(pieces)
      modifies this`data, this`lastUsedOffsetExclusive
      ensures |data| < U32_LIMIT
      ensures Stores(data, pieces + [Piece(offset, p)])
      ensures lastUsedOffsetExclusive == MaxEnd(pieces + [Piece(offset, p)])
    {
      hide Stores, MaxEnd, ByteAt, U32;
      var maxOffsetExclusive := U32(offset + |p|);
      var grown := GrowSliceIfNecessary(maxOffsetExclusive, data, 0);
      WritingStores(data, grown, pieces, Piece(offset, p));
      data := grown[..offset] + p + grown[offset + |p|..];
      if maxOffsetExclusive > lastUsedOffsetExclusive {
        lastUsedOffsetExclusive := maxOffsetExclusive;
      }
    }

    method GetData() returns (result: bytes)
      requires Valid()
      ensures result == Image(pieces)
    {
      result := data[0..lastUsedOffsetExclusive];
    }
  }

  lemma NothingOverlaps(piece: Piece)
    ensures !Overlaps([], piece)
  {
  }

  // The same, step by step
  method RefuseTwice(b: byte) returns (first: bool, second: bool, third: bool, data: bytes)
    ensures first && !second && !third && data == Image([Piece(64, [b])])
  {
    hide Overlaps, Leftover, Image, PairwiseDisjoint, Tracks, Stores, MaxEnd;
    LeftoverRefuses(b);
    var written := new DynamicArray();
    NothingOverlaps(Piece(64, [b]));
    assert written.pieces + written.leftovers == [];
    first := written.Write([b], 64);
    assert written.pieces + written.leftovers == [Piece(64, [b])];
    second := written.Write(Zeros(65), 0);
    assert written.pieces == [Piece(64, [b])] && written.leftovers == [Piece(0, Zeros(64))];
    third := written.Write([b], 0);
    data := written.GetData();
  }
}
