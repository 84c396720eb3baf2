// Big-endian words (common/serializer.go) and the two's-complement offset of a region trailer.
module Words {
  import opened Bits

  // uint16
  type u16 = x: nat | x < 0x1_0000

  function ShortBytes(d: u16): (b: bytes)
    ensures |b| == 2
  {
    [d / 0x100, d % 0x100]
  }

  function WordBytes(d: u32): (b: bytes)
    ensures |b| == 4
  {
    ShortBytes(d / 0x1_0000) + ShortBytes(d % 0x1_0000)
  }

  lemma WordBytesAre(d: u32)
    ensures WordBytes(d) == [d / 0x100_0000, d / 0x1_0000 % 0x100, d / 0x100 % 0x100, d % 0x100]
  {
    var a, b, c := d / 0x1_0000, d % 0x1_0000, d / 0x100;
    QuotientIs(d, 0x100_0000, a / 0x100, a % 0x100 * 0x1_0000 + b);
    QuotientIs(d, 0x100, a * 0x100 + b / 0x100, b % 0x100);
    RemainderIs(c, 0x100, a, b / 0x100);
  }

  lemma QuotientIs(a: nat, m: nat, q: int, r: int)
    requires m > 0 && 0 <= r < m && a == q * m + r
    ensures a / m == q && a % m == r
  {
    RemainderIs(a, m, q, r);
    assert (a / m - q) * m == 0;
    MultipleIsFar(a / m - q, m);
  }

  function ShortOf(b: bytes): (d: u16)
    requires |b| == 2
  {
    (b[0] as int) * 0x100 + b[1]
  }

  function WordOf(b: bytes): u32
    requires |b| == 4
  {
    ShortOf(b[..2]) * 0x1_0000 + ShortOf(b[2..])
  }

  lemma WordRoundTrip(d: u32)
    ensures WordOf(WordBytes(d)) == d
  {
    var b := WordBytes(d);
    assert b[..2] == ShortBytes(d / 0x1_0000) && b[2..] == ShortBytes(d % 0x1_0000);
  }

  lemma WordIsInjective(b: bytes)
    requires |b| == 4
    ensures WordBytes(WordOf(b)) == b
  {
    assert ShortBytes(ShortOf(b[..2])) == b[..2];
    assert ShortBytes(ShortOf(b[2..])) == b[2..];
  }

  // uint32(-int32(x))
  function Negated(x: u32): u32 {
    U32(-(x as int))
  }

  lemma NegatedIs(x: u32)
    requires x > 0
    ensures Negated(x) == U32_LIMIT - x
  {
    RemainderIs(-(x as int), U32_LIMIT, -1, U32_LIMIT - x);
  }

  // A region of 16 bytes for each entry is stored as its negated size; the parser negates it
  // back and divides.
  lemma RegionRoundTrip(n: nat)
    requires n < 0x1000_0000
    ensures Negated(Negated(U32(16 * n))) / 16 == n
  {
    hide U32;
    if n > 0 {
      NegatedIs(16 * n);
      NegatedIs(U32_LIMIT - 16 * n);
    }
    assert 16 * n / 16 == n;
  }
}
