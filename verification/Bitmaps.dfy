// common/bitmap.go: a bitmap packed into 64-bit words, most significant bit first.
module Bitmaps {
  import opened Bits
  import opened Utils

  // Position p is marked in the words of a bitmap
  predicate Marked(words: seq<word>, p: nat) {
    p / 64 < |words| && Bit(words[p / 64], 63 - p % 64)
  }

  predicate Free(words: seq<word>, from: nat, to: nat) {
    forall p :: from <= p < to ==> !Marked(words, p)
  }

  // after marks what before marks and the positions from .. to-1, none of which before marks
  ghost predicate Adds(before: seq<word>, after: seq<word>, from: nat, to: nat) {
    && (forall p: nat :: Marked(after, p) <==> Marked(before, p) || from <= p < to)
    && Free(before, from, to)
  }

  // The first marked position of a range, or its end
  function FirstMarked(words: seq<word>, from: nat, end: nat): (p: nat)
    requires from <= end
    ensures from <= p <= end && Free(words, from, p) && (p < end ==> Marked(words, p))
    decreases end - from
  {
    if from == end || Marked(words, from) then from else FirstMarked(words, from + 1, end)
  }

  // Where a write that meets its first conflict at p has stopped: in front of the word with the
  // conflict, or at its start if it starts in that word
  function StopAt(from: nat, p: nat): (stop: nat)
    requires from <= p
    ensures from <= stop <= p
  {
    if p / 64 * 64 < from then from else p / 64 * 64
  }

  // How far a write gets: through its range, or to where the first conflict stops it
  function Reach(words: seq<word>, from: nat, to: nat): (reach: nat)
    requires from <= to
    ensures from <= reach <= to
  {
    var p := FirstMarked(words, from, to);
    if p == to then to else StopAt(from, p)
  }

  ghost predicate WriteResult(before: seq<word>, after: seq<word>, from: nat, to: nat, ok: bool)
    requires from <= to
  {
    (ok <==> Free(before, from, to)) && Adds(before, after, from, Reach(before, from, to))
  }

  // A write that got as far as position at and then tries at .. to-1, in one word, its range
  // ending at end
  lemma WriteContinues(before: seq<word>, middle: seq<word>, after: seq<word>,
                       from: nat, at: nat, to: nat, end: nat, ok: bool)
    requires from <= at < to <= end && (at == from || at % 64 == 0) && (to - 1) / 64 == at / 64
    requires Adds(before, middle, from, at)
    requires ok <==> Free(middle, at, to)
    requires Adds(middle, after, at, if ok then to else at)
    ensures ok ==> Adds(before, after, from, to)
    ensures !ok || to == end ==> WriteResult(before, after, from, end, ok)
  {
    var p := FirstMarked(before, from, end);
    if !ok {
      var q :| at <= q < to && Marked(middle, q);
      assert Marked(before, q);
      assert at <= p <= q;
      assert p / 64 == at / 64;
    } else {
      assert p >= to;
    }
  }

  ghost predicate Extends(words: seq<word>, grown: seq<word>) {
    && |words| <= |grown|
    && forall i :: 0 <= i < |grown| ==> grown[i] == if i < |words| then words[i] else 0
  }

  lemma GrowingMarksNothing(words: seq<word>, grown: seq<word>, at: nat)
    requires Extends(words, grown)
    ensures Adds(words, grown, at, at)
  {
    forall p: nat ensures Marked(grown, p) <==> Marked(words, p) {
      ZeroHasNoBits(63 - p % 64);
    }
  }

  // Or-ing a mask of count ones at position offset into its word: the mask meets no marked
  // position exactly when the range is free, and then the range is what gets marked.
  lemma MaskMarksRange(words: seq<word>, offset: nat, count: nat, mask: word)
    requires 1 <= count && offset % 64 + count <= 64 && offset / 64 < |words|
    requires forall k: nat :: Bit(mask, k) <==> 64 - count - offset % 64 <= k < 64 - offset % 64
    ensures Or(words[offset / 64], mask) < WORD_LIMIT
    ensures And(words[offset / 64], mask) == 0 <==> Free(words, offset, offset + count)
    ensures Free(words, offset, offset + count) ==>
            Adds(words, words[offset / 64 := Or(words[offset / 64], mask)], offset, offset + count)
  {
    var index, w := offset / 64, words[offset / 64];
    var wordBits := 64;
    WordLimitIsPower(wordBits);
    OrFits(w, mask, wordBits);
    AndIsZero(w, mask);
    forall p: nat | offset <= p < offset + count
      ensures Marked(words, p) <==> Meet(w, mask, 63 - p % 64)
    {
      assert p / 64 == index;
    }
    forall k: nat | Meet(w, mask, k)
      ensures offset <= 64 * index + 63 - k < offset + count && Marked(words, 64 * index + 63 - k)
    {
    }
    var after := words[index := Or(w, mask)];
    forall p: nat
      ensures Marked(after, p) <==> Marked(words, p) || offset <= p < offset + count
    {
      BitOfOr(w, mask, 63 - p % 64);
    }
  }

  lemma GrowAndMask(words: seq<word>, grown: seq<word>, offset: nat, count: nat, mask: word)
    requires Extends(words, grown)
    requires 1 <= count && offset % 64 + count <= 64 && offset / 64 < |grown|
    requires forall k: nat :: Bit(mask, k) <==> 64 - count - offset % 64 <= k < 64 - offset % 64
    ensures Or(grown[offset / 64], mask) < WORD_LIMIT
    ensures And(grown[offset / 64], mask) == 0 <==> Free(words, offset, offset + count)
    ensures Adds(words, grown, offset, offset)
    ensures Free(words, offset, offset + count) ==>
            Adds(words, grown[offset / 64 := Or(grown[offset / 64], mask)], offset, offset + count)
  {
    GrowingMarksNothing(words, grown, offset);
    MaskMarksRange(grown, offset, count, mask);
  }

  lemma MaskBits(n: nat, s: nat)
    requires 1 <= n && n + s <= 64
    ensures forall k: nat :: Bit(Shl(Dec(Shl(1, n)), s), k) <==> s <= k < s + n
  {
    forall k: nat ensures Bit(Shl(Dec(Shl(1, n)), s), k) <==> s <= k < s + n {
      BitOfMask(n, s, k);
    }
  }

  lemma AllOnes(mask: word, n: nat)
    requires mask == WORD_LIMIT - 1 && n == 64
    ensures forall k: nat :: Bit(mask, k) <==> k < n
  {
    WordLimitIsPower(n);
    forall k: nat ensures Bit(mask, k) <==> k < n {
      BitOfLowMask(n, k);
    }
  }

  lemma WordOfPosition(index: nat, k: nat)
    requires k < 64
    ensures (64 * index + k) / 64 == index && (64 * index + k) % 64 == k
  {
  }

  lemma NothingToMark(words: seq<word>, at: nat)
    ensures WriteResult(words, words, at, at, true)
  {
  }

  class Bitmap {
    var data: seq<word>

    constructor ()
      ensures data == []
    {
      data := [];
    }

    // A write inside a single word
    method SimpleWrite(bitOffset: u32, bitCount: u32) returns (ok: bool)
      requires 1 <= bitCount && bitOffset % 64 + bitCount <= 64
      requires |data| < U32_LIMIT
      modifies this
      ensures |data| < U32_LIMIT
      ensures ok <==> Free(old(data), bitOffset, bitOffset + bitCount)
      ensures Adds(old(data), data, bitOffset, if ok then bitOffset + bitCount else bitOffset)
    {
      var index := bitOffset / 64;
      var mask: word := 1;
      LowMaskIsDec(bitCount);
      if bitCount > 1 {
        mask := Dec(Shl(1, bitCount));
      }
      var leftShift := 64 - bitCount - bitOffset % 64;
      mask := Shl(mask, leftShift);
      MaskBits(bitCount, leftShift);

      var grown := GrowSliceIfNecessary(index, data, 0);
      GrowAndMask(data, grown, bitOffset, bitCount, mask);
      data := grown;
      if And(data[index], mask) != 0 {
        return false;
      }
      data := data[index := Or(data[index], mask)];
      return true;
    }

    // One turn of the loop over the words in the middle of a range
    method FillWord(index: u32, mask: word) returns (ok: bool)
      requires index < U32_LIMIT / 64 && mask == WORD_LIMIT - 1
      requires |data| < U32_LIMIT
      modifies this
      ensures |data| < U32_LIMIT
      ensures ok <==> Free(old(data), 64 * index, 64 * index + 64)
      ensures Adds(old(data), data, 64 * index, if ok then 64 * index + 64 else 64 * index)
    {
      AllOnes(mask, 64);
      var grown := GrowSliceIfNecessary(index, data, 0);
      assert (64 * index) / 64 == index && (64 * index) % 64 == 0;
      GrowAndMask(data, grown, 64 * index, 64, mask);
      data := grown;
      if And(data[index], mask) != 0 {
        return false;
      }
      data := data[index := Or(data[index], mask)];
      return true;
    }

    // Marks a range, and says whether it was unmarked before. A rejected write leaves the part
    // of its range in front of the word with the first conflict marked.
    method Set(bitOffset: u32, bitCount: u32) returns (ok: bool)
      requires bitOffset + bitCount <= U32_LIMIT
      requires |data| < U32_LIMIT
      modifies this
      ensures |data| < U32_LIMIT
      ensures WriteResult(old(data), data, bitOffset, bitOffset + bitCount, ok)
    {
      ghost var before, end := data, bitOffset + bitCount;
      if bitCount == 0 {
        NothingToMark(data, bitOffset);
        return true;
      }
      hide Free, Adds, WriteResult, Marked;
      var startIndex := bitOffset / 64;
      var endIndex := (bitOffset + bitCount - 1) / 64;
      if startIndex == endIndex {
        ok := SimpleWrite(bitOffset, bitCount);
        WriteContinues(before, before, data, bitOffset, bitOffset, end, end, ok);
        return;
      }
      var cnt := 64 - (bitOffset - startIndex * 64);
      WordOfPosition(startIndex, 63);
      ok := SimpleWrite(bitOffset, cnt);
      WriteContinues(before, before, data, bitOffset, bitOffset, bitOffset + cnt, end, ok);
      if !ok {
        return;
      }
      ok := SetWords(startIndex + 1, endIndex, bitCount - cnt, before, bitOffset);
    }

    // The rest of a range behind its first word
    method SetWords(startIndex: u32, endIndex: u32, bitCount: u32, ghost before: seq<word>, ghost bitOffset: nat)
      returns (ok: bool)
      requires 0 < bitCount && bitOffset <= 64 * startIndex && 64 * startIndex + bitCount <= U32_LIMIT
      requires endIndex == (64 * startIndex + bitCount - 1) / 64
      requires |data| < U32_LIMIT && Adds(before, data, bitOffset, 64 * startIndex)
      modifies this
      ensures |data| < U32_LIMIT
      ensures WriteResult(before, data, bitOffset, 64 * startIndex + bitCount, ok)
    {
      hide Free, Adds, WriteResult, Marked;
      ghost var end: nat := 64 * (startIndex as nat) + bitCount;
      var bitsRemaining := bitCount;
      var currentIndex := startIndex;
      var mask: word := 0xffff_ffff_ffff_ffff;
      while bitsRemaining > 64
        invariant |data| < U32_LIMIT
        invariant 64 * (currentIndex as nat) + bitsRemaining == end
        invariant startIndex <= currentIndex && 0 < bitsRemaining
        invariant Adds(before, data, bitOffset, 64 * currentIndex)
      {
        ghost var reached, from := data, 64 * currentIndex;
        ok := FillWord(currentIndex, mask);
        WordOfPosition(currentIndex, 0);
        WordOfPosition(currentIndex, 63);
        WriteContinues(before, reached, data, bitOffset, from, from + 64, end, ok);
        if !ok {
          return;
        }
        currentIndex := currentIndex + 1;
        bitsRemaining := bitsRemaining - 64;
      }
      ghost var reached, from := data, 64 * currentIndex;
      WordOfPosition(currentIndex, 0);
      WordOfPosition(currentIndex, bitsRemaining - 1);
      ok := SimpleWrite(endIndex * 64, bitsRemaining);
      WriteContinues(before, reached, data, bitOffset, from, end, end, ok);
    }
  }
}
