// Readers and writers (common/serializer.go, common/utils.go:258-278, client/remotesign.go:17-52,
// common/rpmparser.go:1309-1338). Every reader is a chain: a source that hands out its bytes in
// pieces of its own choosing, possibly the client's capturing reader, the reader that counts
// the offset, and any number of digests on top.
module Streams {
  import opened Bits
  import opened Utils
  import opened Words
  import opened Headers
  import opened Formats

  // What the readers on top of a source have seen
  datatype Observers = Observers(capturing: bool, captured: bytes, offset: nat, digests: seq<bytes>) {
    // A read that returned b has passed through all of them.
    function Saw(b: bytes): (seen: Observers)
      ensures seen.offset == offset + |b|
    {
      Observers(capturing, if capturing then captured + b else captured, offset + |b|,
                seq(|digests|, i requires 0 <= i < |digests| => digests[i] + b))
    }
  }

  lemma SawThen(o: Observers, a: bytes, b: bytes)
    ensures o.Saw(a).Saw(b) == o.Saw(a + b)
  {
    assert o.captured + a + b == o.captured + (a + b);
    forall i | 0 <= i < |o.digests| ensures o.digests[i] + a + b == o.digests[i] + (a + b) {
    }
  }

  lemma SawNothing(o: Observers)
    ensures o.Saw([]) == o
  {
    assert o.captured + [] == o.captured;
    forall i | 0 <= i < |o.digests| ensures o.digests[i] + [] == o.digests[i] {
    }
  }

  function Min(a: nat, b: nat): nat {
    if a < b then a else b
  }

  class Input {
    const source: bytes
    // At position p the source returns at most this many bytes, but never none.
    const chunk: nat -> nat
    // Whether a read that ends the source says so when it returned as many bytes short of what
    // was asked; a read that returns nothing always does.
    const eager: nat -> bool
    var pos: nat
    var seen: Observers

    ghost predicate Valid()
      reads this
    {
      pos <= |source|
    }

    ghost function Rest(): bytes
      reads this
      requires Valid()
    {
      source[pos..]
    }

    // The source never cuts a read short before its end, like the reader over an array.
    ghost predicate Whole() {
      forall p: nat :: chunk(p) >= |source|
    }

    // Since a state with position p and observers o, exactly n bytes were consumed.
    ghost predicate Consumed(p: nat, o: Observers, n: nat)
      reads this
    {
      pos == p + n <= |source| && seen == o.Saw(source[p..pos])
    }

    constructor (source: bytes, chunk: nat -> nat, eager: nat -> bool, capturing: bool)
      ensures Valid() && pos == 0 && this.source == source && this.chunk == chunk && this.eager == eager
      ensures seen == Observers(capturing, [], 0, [])
    {
      this.source, this.chunk, this.eager := source, chunk, eager;
      pos := 0;
      seen := Observers(capturing, [], 0, []);
    }

    constructor FromArray(source: bytes)
      ensures Valid() && pos == 0 && this.source == source && Whole()
      ensures seen == Observers(false, [], 0, [])
    {
      this.source := source;
      chunk := (p: nat) => |source|;
      eager := missing => missing > 0;
      pos := 0;
      seen := Observers(false, [], 0, []);
    }

    // How many bytes a read of len bytes returns at position p
    ghost function ReadSize(p: nat, len: nat): nat
      requires p <= |source|
    {
      Min(Min(len, |source| - p), if chunk(p) == 0 then 1 else chunk(p))
    }

    method Read(len: nat) returns (b: bytes, eof: bool)
      requires Valid() && len > 0
      modifies this
      ensures Valid() && Consumed(old(pos), old(seen), |b|) && b == source[old(pos)..pos]
      ensures |b| == ReadSize(old(pos), len)
      ensures b == [] ==> eof
      ensures eof ==> pos == |source|
    {
      var n := Min(Min(len, |source| - pos), if chunk(pos) == 0 then 1 else chunk(pos));
      b := source[pos..pos + n];
      pos := pos + n;
      eof := pos == |source| && (n == 0 || eager(len - n));
      seen := seen.Saw(b);
    }

    // StopCapturing of the client's capturing reader
    method StopCapturing()
      requires Valid()
      modifies this`seen
      ensures Valid() && seen == old(seen).(capturing := false)
    {
      seen := seen.(capturing := false);
    }

    // FillBuffer: all bytes asked for, or an error after everything was read
    method FillBuffer(len: nat) returns (ok: bool, buf: bytes)
      requires Valid()
      modifies this
      ensures Valid()
      ensures ok <==> len <= |old(Rest())|
      ensures ok ==> Consumed(old(pos), old(seen), len) && buf == old(Rest())[..len]
      ensures !ok ==> pos == |source|
    {
      buf := [];
      ghost var p, o := pos, seen;
      SawNothing(o);
      var remaining := len;
      while remaining > 0
        invariant Valid() && 0 <= remaining && remaining + |buf| == len
        invariant Consumed(p, o, |buf|) && buf == source[p..pos]
      {
        ghost var before := pos;
        var b, eof := Read(remaining);
        Advanced(p, before, o, b);
        buf := buf + b;
        remaining := remaining - |b|;
        if eof {
          ok := remaining == 0;
          return;
        }
      }
      ok := true;
    }

    lemma Advanced(p: nat, before: nat, o: Observers, b: bytes)
      requires p <= before <= pos <= |source| && b == source[before..pos]
      requires seen == o.Saw(source[p..before]).Saw(b)
      ensures Consumed(p, o, pos - p) && source[p..before] + b == source[p..pos]
    {
      assert source[p..before] + b == source[p..pos];
      SawThen(o, source[p..before], b);
    }

    // Two pieces consumed one after the other
    lemma ConsumedThen(p: nat, o: Observers, m: nat, middle: Observers, n: nat)
      requires p + m <= |source| && middle == o.Saw(source[p..p + m])
      requires Consumed(p + m, middle, n)
      ensures Consumed(p, o, m + n)
    {
      assert source[p..p + m] + source[p + m..pos] == source[p..pos];
      SawThen(o, source[p..p + m], source[p + m..pos]);
    }

    // Every read of the loop in readAhead returns all it asked for.
    ghost predicate FullReads(p: nat, n: nat)
      decreases n
    {
      n == 0 ||
      var want := Min(n, 102400);
      p <= |source| && ReadSize(p, want) == want && FullReads(p + want, n - want)
    }

    // A source that is not cut up serves any readAhead that it has the bytes for.
    lemma {:induction false} WholeReadsAreFull(p: nat, n: nat)
      requires Whole() && p <= |source|
      ensures FullReads(p, n) <==> p + n <= |source|
      decreases n
    {
      if n > 0 {
        var want := Min(n, 102400);
        if p + want <= |source| {
          WholeReadsAreFull(p + want, n - want);
        }
      }
    }

    // A read of the loop that is cut short ends it, whatever the source still has.
    lemma CutShortIsNotFull(p: nat, n: nat)
      requires n > 102400 && p <= |source| && ReadSize(p, 102400) < 102400
      ensures !FullReads(p, n)
    {
    }

    // readAhead: beyond 100 KiB it gives up on the first short read, so what it needs is not
    // only that the bytes are there.
    method ReadAhead(n: nat) returns (ok: bool)
      requires Valid()
      modifies this
      ensures Valid()
      ensures ok ==> Consumed(old(pos), old(seen), n)
      ensures ok <==> if n <= 102400 then n <= |old(Rest())| else FullReads(old(pos), n)
    {
      if n == 0 {
        SawNothing(seen);
        return true;
      }
      if n <= 102400 {
        var buf;
        ok, buf := FillBuffer(n);
        return;
      }
      ghost var p, o := pos, seen;
      SawNothing(o);
      var remaining := n;
      while remaining > 0
        invariant Valid() && 0 <= remaining <= n && Consumed(p, o, n - remaining)
        invariant FullReads(p, n) <==> FullReads(pos, remaining)
      {
        ghost var before := pos;
        var want := Min(remaining, 102400);
        var b, eof := Read(want);
        Advanced(p, before, o, b);
        remaining := remaining - |b|;
        if |b| < want {
          break;
        }
      }
      ok := remaining == 0;
    }

    // advanceToNext8ByteBoundary
    method AdvanceToNext8ByteBoundary() returns (ok: bool)
      requires Valid()
      modifies this
      ensures Valid()
      ensures var padding := CalcAlignmentByteCount(old(seen.offset), 8);
              && (ok <==> padding <= |old(Rest())|)
              && (ok ==> Consumed(old(pos), old(seen), padding))
    {
      var numBytesToSkip := CalcAlignmentByteCount(seen.offset, 8);
      SawNothing(seen);
      ok := true;
      if numBytesToSkip != 0 {
        ok := ReadAhead(numBytesToSkip);
      }
    }

    method ReadByte() returns (ok: bool, b: byte)
      requires Valid()
      modifies this
      ensures Valid()
      ensures ok <==> 1 <= |old(Rest())|
      ensures ok ==> Consumed(old(pos), old(seen), 1) && b == old(Rest())[0]
    {
      var buf;
      ok, buf := FillBuffer(1);
      b := if ok then buf[0] else 0;
    }

    // Big-endian, like all numbers in the file
    method ReadShort() returns (ok: bool, d: u16)
      requires Valid()
      modifies this
      ensures Valid()
      ensures ok <==> 2 <= |old(Rest())|
      ensures ok ==> Consumed(old(pos), old(seen), 2) && d == ShortOf(old(Rest())[..2])
    {
      var buf;
      ok, buf := FillBuffer(2);
      d := if ok then ShortOf(buf) else 0;
    }

    method ReadWord() returns (ok: bool, d: u32)
      requires Valid()
      modifies this
      ensures Valid()
      ensures ok <==> 4 <= |old(Rest())|
      ensures ok ==> Consumed(old(pos), old(seen), 4) && d == WordOf(old(Rest())[..4])
    {
      ghost var p, o, rest := pos, seen, Rest();
      var ok1, high := ReadShort();
      d := 0;
      if !ok1 {
        return false, 0;
      }
      ghost var middle := seen;
      var ok2, low := ReadShort();
      if !ok2 {
        return false, 0;
      }
      ConsumedThen(p, o, 2, middle, 2);
      assert rest[..4][..2] == rest[..2] && rest[..4][2..] == rest[2..][..2];
      return true, (high as int) * 0x1_0000 + low;
    }

    // The bytes up to and including the next zero
    method ReadNullTerminatedString() returns (ok: bool, result: bytes)
      requires Valid()
      modifies this
      ensures Valid()
      ensures ok <==> StringSize(old(Rest())).Some?
      ensures ok ==>
                var n := StringSize(old(Rest())).value;
                Consumed(old(pos), old(seen), n) && result == old(Rest())[..n]
    {
      result := [];
      ghost var p, o, rest := pos, seen, Rest();
      SawNothing(o);
      while true
        invariant Valid() && Consumed(p, o, |result|) && result == source[p..pos]
        invariant StringSize(rest) == (var n := StringSize(Rest());
                                       if n.None? then None else Some(|result| + n.value))
        decreases |source| - pos
      {
        ghost var before := pos;
        var b;
        ok, b := ReadByte();
        if !ok {
          return false, result;
        }
        Advanced(p, before, o, [b]);
        result := result + [b];
        assert source[before..][1..] == Rest();
        if b == 0 {
          return true, result;
        }
      }
    }
  }

  // A source that has the n bytes but hands them out one at a time: readAhead fails on it for
  // every n beyond 100 KiB.
  method ReadAheadByBytes(n: nat) returns (left: nat, ok: bool)
    requires n > 102400
    ensures left == n && !ok
  {
    var s := new Input(Zeros(n), p => 1, missing => true, false);
    left := |s.source| - s.pos;
    s.CutShortIsNotFull(0, n);
    ok := s.ReadAhead(n);
  }
}
