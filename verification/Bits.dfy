// Unsigned machine words as bounded naturals. Go's bitwise operators are defined bit by bit,
// so that every use of a mask in the sources can be reasoned about position by position.
module Bits {

  function Pow2(n: nat): (p: nat)
    ensures p >= 1
  {
    if n == 0 then 1 else 2 * Pow2(n - 1)
  }

  // uint64
  const WORD_LIMIT := 0x1_0000_0000_0000_0000
  type word = w: nat | w < WORD_LIMIT

  // uint32
  const U32_LIMIT := 0x1_0000_0000
  type u32 = x: nat | x < U32_LIMIT

  // A conversion or an arithmetic result truncated to 32 bits
  function U32(x: int): (r: u32)
    ensures 0 <= x < U32_LIMIT ==> r == x
  {
    x % U32_LIMIT
  }

  type byte = b: nat | b < 256
  type bytes = seq<byte>

  function Zeros(n: nat): (z: bytes)
    ensures |z| == n && forall i :: 0 <= i < n ==> z[i] == 0
  {
    seq(n, i => 0)
  }

  // Bit k of w, counted from the least significant end
  predicate Bit(w: nat, k: nat)
    decreases k
  {
    if k == 0 then w % 2 == 1 else Bit(w / 2, k - 1)
  }

  function And(a: nat, b: nat): nat
  {
    if a == 0 || b == 0 then 0
    else 2 * And(a / 2, b / 2) + if a % 2 == 1 && b % 2 == 1 then 1 else 0
  }

  function Or(a: nat, b: nat): nat
    decreases a + b
  {
    if a == 0 && b == 0 then 0
    else 2 * Or(a / 2, b / 2) + if a % 2 == 1 || b % 2 == 1 then 1 else 0
  }

  // x << n on a uint64
  function Shl(x: word, n: nat): word
  {
    (x * Pow2(n)) % WORD_LIMIT
  }

  // x - 1 on a uint64
  function Dec(x: word): word
  {
    (x + WORD_LIMIT - 1) % WORD_LIMIT
  }

  lemma {:induction false} Pow2Adds(m: nat, n: nat)
    ensures Pow2(m + n) == Pow2(m) * Pow2(n)
  {
    if m > 0 {
      Pow2Adds(m - 1, n);
      assert Pow2(m + n) == 2 * (Pow2(m - 1) * Pow2(n));
    }
  }

  lemma Squared(n: nat, p: nat, n': nat, p': nat)
    requires Pow2(n) == p && n' == 2 * n && p' == p * p
    ensures Pow2(n') == p'
  {
    Pow2Adds(n, n);
  }

  lemma WordLimitIsPower(n: nat)
    requires n == 64
    ensures Pow2(n) == WORD_LIMIT
  {
    assert Pow2(4) == 16;
    Squared(4, 16, 8, 256);
    Squared(8, 256, 16, 0x1_0000);
    Squared(16, 0x1_0000, 32, U32_LIMIT);
    Squared(32, U32_LIMIT, n, WORD_LIMIT);
  }

  lemma {:induction false} Pow2Monotone(m: nat, n: nat)
    requires m <= n
    ensures Pow2(m) <= Pow2(n)
  {
    if m < n {
      Pow2Monotone(m, n - 1);
    }
  }

  lemma {:induction false} ZeroHasNoBits(k: nat)
    ensures !Bit(0, k)
  {
    if k > 0 {
      ZeroHasNoBits(k - 1);
    }
  }

  lemma {:induction false} BitOfOr(a: nat, b: nat, k: nat)
    ensures Bit(Or(a, b), k) <==> Bit(a, k) || Bit(b, k)
    decreases k
  {
    if a == 0 && b == 0 {
      ZeroHasNoBits(k);
    } else if k > 0 {
      assert Or(a, b) / 2 == Or(a / 2, b / 2);
      BitOfOr(a / 2, b / 2, k - 1);
    }
  }

  lemma {:induction false} OrFits(a: nat, b: nat, m: nat)
    requires a < Pow2(m) && b < Pow2(m)
    ensures Or(a, b) < Pow2(m)
    decreases m
  {
    if a != 0 || b != 0 {
      OrFits(a / 2, b / 2, m - 1);
    }
  }

  predicate Meet(a: nat, b: nat, k: nat) {
    Bit(a, k) && Bit(b, k)
  }

  // & is zero exactly when the two words have no bit in common
  lemma {:induction false} AndIsZero(a: nat, b: nat)
    ensures And(a, b) == 0 <==> forall k: nat :: !Meet(a, b, k)
    decreases a
  {
    if a == 0 || b == 0 {
      forall k: nat ensures !Meet(a, b, k) {
        ZeroHasNoBits(k);
      }
    } else {
      AndIsZero(a / 2, b / 2);
      forall k: nat ensures Meet(a, b, k + 1) <==> Meet(a / 2, b / 2, k) {
      }
      assert Meet(a, b, 0) <==> a % 2 == 1 && b % 2 == 1;
      if k: nat :| Meet(a / 2, b / 2, k) {
        assert Meet(a, b, k + 1);
      } else {
        forall k: nat ensures Meet(a, b, k) <==> k == 0 && Meet(a, b, 0) {
          assert k > 0 ==> !Meet(a / 2, b / 2, k - 1);
        }
      }
    }
  }

  lemma {:induction false} AndOfLowMask(a: nat, n: nat)
    ensures And(a, Pow2(n) - 1) == a % Pow2(n)
    decreases n
  {
    if a != 0 && n > 0 {
      assert (Pow2(n) - 1) / 2 == Pow2(n - 1) - 1;
      AndOfLowMask(a / 2, n - 1);
      HalvedRemainder(a, Pow2(n - 1));
    }
  }

  lemma HalvedRemainder(a: nat, p: nat)
    requires p > 0
    ensures a % (2 * p) == 2 * ((a / 2) % p) + a % 2
  {
    var q, r := (a / 2) / p, (a / 2) % p;
    assert a / 2 == q * p + r;
    assert a == q * (2 * p) + (2 * r + a % 2);
    RemainderIs(a, 2 * p, q, 2 * r + a % 2);
  }

  lemma RemainderIs(a: int, m: nat, q: int, r: int)
    requires m > 0 && 0 <= r < m && a == q * m + r
    ensures a % m == r
  {
    var d := a / m - q;
    assert d * m == r - a % m by {
      assert a == (a / m) * m + a % m;
    }
    MultipleIsFar(d, m);
  }

  lemma MultipleIsFar(d: int, m: int)
    requires m > 0
    ensures d >= 1 ==> d * m >= m
    ensures d <= -1 ==> d * m <= -m
  {
  }

  lemma {:induction false} BitOfLowMask(n: nat, k: nat)
    ensures Bit(Pow2(n) - 1, k) <==> k < n
    decreases n
  {
    if n == 0 {
      ZeroHasNoBits(k);
    } else if k > 0 {
      assert (Pow2(n) - 1) / 2 == Pow2(n - 1) - 1;
      BitOfLowMask(n - 1, k - 1);
    }
  }

  lemma {:induction false} BitOfShifted(x: nat, s: nat, k: nat)
    ensures Bit(x * Pow2(s), k) <==> k >= s && Bit(x, k - s)
    decreases s
  {
    if s > 0 {
      var half := x * Pow2(s - 1);
      assert x * Pow2(s) == 2 * half;
      if k > 0 {
        BitOfShifted(x, s - 1, k - 1);
      }
    }
  }

  // (1 << n) - 1, also when the shift overflows to zero
  lemma DecOfPower(n: nat, top: nat)
    requires Pow2(n) == top || 2 * Pow2(n) <= top
    ensures ((1 * Pow2(n)) % top + top - 1) % top == Pow2(n) - 1
  {
    var p := Pow2(n);
    if p == top {
      RemainderIs(top, top, 1, 0);
      RemainderIs(top - 1, top, 0, p - 1);
    } else {
      RemainderIs(p, top, 0, p);
      RemainderIs(p - 1 + top, top, 1, p - 1);
    }
  }

  lemma FitsWord(n: nat)
    requires n <= 64
    ensures Pow2(n) <= WORD_LIMIT
    ensures n < 64 ==> 2 * Pow2(n) <= WORD_LIMIT
    ensures n == 64 ==> Pow2(n) == WORD_LIMIT
  {
    var top := 64;
    WordLimitIsPower(top);
    Pow2Monotone(n, top);
    if n < 64 {
      Pow2Monotone(n + 1, top);
    }
  }

  lemma LowMaskIsDec(n: nat)
    requires 1 <= n <= 64
    ensures Dec(Shl(1, n)) == Pow2(n) - 1 < WORD_LIMIT
    ensures n == 1 ==> Dec(Shl(1, n)) == 1
  {
    FitsWord(n);
    DecOfPower(n, WORD_LIMIT);
  }

  // The mask of n ones followed by s zeros, built the way bitmap.go builds it, has
  // exactly the bits s .. s+n-1.
  lemma BitOfMask(n: nat, s: nat, k: nat)
    requires 1 <= n && n + s <= 64
    ensures Bit(Shl(Dec(Shl(1, n)), s), k) <==> s <= k < s + n
  {
    LowMaskIsDec(n);
    FitsWord(n + s);
    MaskValue(n, s, WORD_LIMIT);
    BitOfShifted(Pow2(n) - 1, s, k);
    if k >= s {
      BitOfLowMask(n, k - s);
    }
  }

  lemma MaskValue(n: nat, s: nat, top: nat)
    requires Pow2(n + s) <= top
    ensures ((Pow2(n) - 1) * Pow2(s)) % top == (Pow2(n) - 1) * Pow2(s)
  {
    hide Pow2;
    Pow2Adds(n, s);
    var value := (Pow2(n) - 1) * Pow2(s);
    OneLess(Pow2(n), Pow2(s));
    RemainderIs(value, top, 0, value);
  }

  lemma OneLess(p: nat, q: nat)
    requires p > 0 && q > 0
    ensures 0 <= (p - 1) * q < p * q
  {
    assert (p - 1) * q == p * q - q;
  }
}
