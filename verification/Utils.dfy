// common/utils.go: alignment arithmetic and slices that grow on demand.
module Utils {
  import opened Bits

  // IsPowerOfTwo, on the non-zero alignments it is called with
  predicate IsPowerOfTwo(value: nat)
    requires value > 0
  {
    And(value, value - 1) == 0
  }

  // The alignments that fit into a byte and are powers of two
  const ALIGNMENTS: set<nat> := {1, 2, 4, 8, 16, 32, 64, 128}

  // The number of bytes to add to an address to make it a multiple of the alignment. The
  // source panics on any alignment that is not a power of two.
  function CalcAlignmentByteCount(address: nat, alignment: nat): (padding: nat)
    requires alignment in ALIGNMENTS
    ensures padding < alignment
    ensures (address + padding) % alignment == 0
  {
    if alignment == 1 then 0
    else
      var mask := alignment - 1;
      MaskedPadding(address, alignment);
      And(alignment - And(address, mask), mask)
  }

  lemma MaskedPadding(address: nat, alignment: nat)
    requires alignment in ALIGNMENTS && alignment > 1
    ensures And(address, alignment - 1) < alignment
    ensures var padding := And(alignment - And(address, alignment - 1), alignment - 1);
            padding < alignment && (address + padding) % alignment == 0
  {
    hide And;
    LowMaskIsRemainder(address, alignment);
    PaddedIsMultiple(address, alignment);
    LowMaskIsRemainder(alignment - address % alignment, alignment);
  }

  lemma PaddedIsMultiple(address: nat, alignment: nat)
    requires alignment > 0
    ensures 0 <= address % alignment < alignment
    ensures var padding := (alignment - address % alignment) % alignment;
            0 <= padding < alignment && (address + padding) % alignment == 0
  {
    var q, r := address / alignment, address % alignment;
    if r == 0 {
      RemainderIs(alignment, alignment, 1, 0);
      RemainderIs(address, alignment, q, 0);
    } else {
      RemainderIs(alignment - r, alignment, 0, alignment - r);
      assert address + alignment - r == (q + 1) * alignment;
      RemainderIs(address + alignment - r, alignment, q + 1, 0);
    }
  }

  lemma LowMaskIsRemainder(address: nat, alignment: nat)
    requires alignment in ALIGNMENTS
    ensures And(address, alignment - 1) == address % alignment
  {
    var n := PowerOf(alignment);
    AndOfLowMask(address, n);
  }

  lemma PowerOf(alignment: nat) returns (n: nat)
    requires alignment in ALIGNMENTS
    ensures Pow2(n) == alignment
  {
    assert Pow2(1) == 2 && Pow2(2) == 4 && Pow2(3) == 8;
    assert Pow2(4) == 16 && Pow2(5) == 32;
    assert Pow2(6) == 64 && Pow2(7) == 128;
    n := if alignment == 1 then 0 else if alignment == 2 then 1 else if alignment == 4 then 2
         else if alignment == 8 then 3 else if alignment == 16 then 4 else if alignment == 32 then 5
         else if alignment == 64 then 6 else 7;
  }

  lemma {:induction false} AndWithItself(a: nat)
    ensures a > 0 ==> And(a, a) > 0
  {
    if a > 1 {
      AndWithItself(a / 2);
    }
  }

  lemma OneIsPower(value: nat)
    requires value == 1
    ensures IsPowerOfTwo(value)
  {
  }

  lemma HalfOfPower(value: nat)
    requires value > 1
    ensures IsPowerOfTwo(value) <==> value % 2 == 0 && IsPowerOfTwo(value / 2)
  {
    if value % 2 == 0 {
      assert (value - 1) / 2 == value / 2 - 1;
    } else {
      assert (value - 1) / 2 == value / 2;
      AndWithItself(value / 2);
    }
  }

  // The test of the source lets exactly these alignments pass.
  lemma {:induction false} AlignmentsArePowersOfTwo(alignment: nat)
    requires 0 < alignment < 256
    ensures IsPowerOfTwo(alignment) <==> alignment in ALIGNMENTS
  {
    hide And;
    if alignment == 1 {
      OneIsPower(alignment);
    } else {
      HalfOfPower(alignment);
      AlignmentsArePowersOfTwo(alignment / 2);
    }
  }

  // No smaller padding aligns the address, and an aligned address needs none.
  lemma PaddingIsLeast(address: nat, alignment: nat, other: nat)
    requires alignment in ALIGNMENTS
    requires (address + other) % alignment == 0
    ensures CalcAlignmentByteCount(address, alignment) <= other
  {
    hide CalcAlignmentByteCount;
    LeastPadding(address, alignment, CalcAlignmentByteCount(address, alignment), other);
  }

  lemma LeastPadding(address: nat, m: nat, padding: nat, other: nat)
    requires padding < m && (address + padding) % m == 0 && (address + other) % m == 0
    ensures padding <= other
  {
    if other < padding {
      var q, q' := (address + other) / m, (address + padding) / m;
      MultipleIsFar(q' - q, m);
    }
  }

  // GrowSliceIfNecessary: afterwards the slice can be indexed at the given index, except
  // for the last uint32, where the new length wraps around to zero.
  method GrowSliceIfNecessary<T>(index: u32, s: seq<T>, zero: T) returns (grown: seq<T>)
    requires |s| < U32_LIMIT
    ensures |s| <= |grown| < U32_LIMIT
    ensures index < |s| ==> grown == s
    ensures index + 1 < U32_LIMIT ==> index < |grown|
    ensures forall i :: 0 <= i < |grown| ==> grown[i] == if i < |s| then s[i] else zero
  {
    grown := s;
    var currentLen := U32(|s|);
    if index >= currentLen {
      var newLen := U32(1 + U32(|s| * 2));
      if newLen <= index {
        newLen := U32(index + 1);
      }
      if |s| < newLen {
        grown := s + seq(newLen - |s|, i => zero);
      }
    }
  }
}
