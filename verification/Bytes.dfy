/**
 * Bytes, and little-endian numbers of two and four bytes, read from sequences of them and written
 * to them. A number read back is the number written, and what is read from a part of a sequence
 * is what is read from the whole at the right place.
 */
module Bytes {

  type Byte = b: int | 0 <= b < 256

  function U16(b: seq<Byte>, i: nat): (n: nat)
    requires i + 2 <= |b|
    ensures n < 0x1_0000
  {
    var low: int, high: int := b[i], b[i + 1];
    low + 0x100 * high
  }

  function U32(b: seq<Byte>, i: nat): (n: nat)
    requires i + 4 <= |b|
    ensures n < 0x1_0000_0000
  {
    U16(b, i) + 0x1_0000 * U16(b, i + 2)
  }

  function LE16(n: nat): (b: seq<Byte>)
    requires n < 0x1_0000
    ensures |b| == 2
  {
    [n % 0x100, n / 0x100]
  }

  function LE32(n: nat): (b: seq<Byte>)
    requires n < 0x1_0000_0000
    ensures |b| == 4
  {
    LE16(n % 0x1_0000) + LE16(n / 0x1_0000)
  }

  // ----- reading what was written

  lemma {:induction false} ReadLE16(b: seq<Byte>, i: nat, n: nat)
    requires n < 0x1_0000 && i + 2 <= |b| && b[i..i + 2] == LE16(n)
    ensures U16(b, i) == n
  {
    assert b[i] == b[i..i + 2][0] && b[i + 1] == b[i..i + 2][1];
  }

  lemma {:induction false} ReadLE32(b: seq<Byte>, i: nat, n: nat)
    requires n < 0x1_0000_0000 && i + 4 <= |b| && b[i..i + 4] == LE32(n)
    ensures U32(b, i) == n
  {
    assert b[i..i + 2] == b[i..i + 4][..2] == LE16(n % 0x1_0000);
    assert b[i + 2..i + 4] == b[i..i + 4][2..] == LE16(n / 0x1_0000);
    ReadLE16(b, i, n % 0x1_0000);
    ReadLE16(b, i + 2, n / 0x1_0000);
  }

  /** Part of a part. */
  lemma {:induction false} Within(b: seq<Byte>, i: nat, part: seq<Byte>, from: nat, to: nat)
    requires i + |part| <= |b| && b[i..i + |part|] == part && from <= to <= |part|
    ensures b[i + from..i + to] == part[from..to]
  {
    forall k | 0 <= k < to - from ensures b[i + from..i + to][k] == part[from..to][k] {
      assert b[i..i + |part|][from + k] == part[from + k];
    }
  }

  /** The first of two adjacent parts, and the second. */
  lemma {:induction false} SplitAt(b: seq<Byte>, p: nat, end: nat, first: seq<Byte>, second: seq<Byte>)
    requires p <= end <= |b| && b[p..end] == first + second
    ensures p + |first| <= end && b[p..p + |first|] == first && b[p + |first|..end] == second
  {
    assert b[p..p + |first|] == b[p..end][..|first|];
    assert b[p + |first|..end] == b[p..end][|first|..];
  }
}
