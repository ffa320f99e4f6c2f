/**
 * UTF-8 encoding of JavaScript strings (RFC 3629). A surrogate pair is one code point and takes
 * four bytes, and a surrogate on its own is written as the replacement character. As many bytes as
 * code units are there exactly for ASCII.
 */
module Utf8 {
  import opened Bytes
  import opened JsNumbers
  import opened Wrappers

  predicate IsHigh(c: CodeUnit) {
    0xd800 <= c < 0xdc00
  }

  predicate IsLow(c: CodeUnit) {
    0xdc00 <= c < 0xe000
  }

  /** The bytes of one code point. */
  function EncodePoint(p: nat): (b: seq<Byte>)
    requires p < 0x11_0000
    ensures |b| == if p < 0x80 then 1 else if p < 0x800 then 2 else if p < 0x1_0000 then 3 else 4
  {
    if p < 0x80 then [p]
    else if p < 0x800 then [0xc0 + p / 0x40, 0x80 + p % 0x40]
    else if p < 0x1_0000 then [0xe0 + p / 0x1000, 0x80 + p / 0x40 % 0x40, 0x80 + p % 0x40]
    else [0xf0 + p / 0x4_0000, 0x80 + p / 0x1000 % 0x40, 0x80 + p / 0x40 % 0x40, 0x80 + p % 0x40]
  }

  /** The code point of a surrogate pair. */
  function PairPoint(high: CodeUnit, low: CodeUnit): (p: nat)
    requires IsHigh(high) && IsLow(low)
    ensures 0x1_0000 <= p < 0x11_0000
  {
    var h: int, l: int := high, low;
    0x1_0000 + 0x400 * (h - 0xd800) + (l - 0xdc00)
  }

  function Encoded(s: seq<CodeUnit>): (b: seq<Byte>)
    ensures |b| >= |s|
  {
    if s == [] then []
    else if |s| >= 2 && IsHigh(s[0]) && IsLow(s[1]) then
      EncodePoint(PairPoint(s[0], s[1])) + Encoded(s[2..])
    else EncodePoint(if IsHigh(s[0]) || IsLow(s[0]) then 0xfffd else s[0]) + Encoded(s[1..])
  }

  predicate IsAscii(s: seq<CodeUnit>) {
    forall k :: 0 <= k < |s| ==> s[k] < 0x80
  }

  lemma {:induction false} AsciiTail(s: seq<CodeUnit>)
    ensures IsAscii(s) <==> s == [] || (s[0] < 0x80 && IsAscii(s[1..]))
  {
    if s != [] && IsAscii(s[1..]) {
      forall k | 1 <= k < |s| ensures s[k] < 0x80 {
        assert s[1..][k - 1] < 0x80;
      }
    }
  }

  /** A string has as many bytes as code units exactly if it is ASCII. */
  lemma {:induction false} LengthIffAscii(s: seq<CodeUnit>)
    ensures |Encoded(s)| == |s| <==> IsAscii(s)
  {
    hide IsAscii;
    AsciiTail(s);
    if s != [] && !(|s| >= 2 && IsHigh(s[0]) && IsLow(s[1])) {
      LengthIffAscii(s[1..]);
    }
  }

  predicate SameCodes(b: seq<Byte>, s: seq<CodeUnit>) {
    |b| == |s| && forall k :: 0 <= k < |s| ==> b[k] == s[k]
  }

  /** Then the bytes are the code units. */
  lemma {:induction false} AsciiIsItself(s: seq<CodeUnit>)
    requires IsAscii(s)
    ensures SameCodes(Encoded(s), s)
  {
    if s != [] {
      AsciiTail(s);
      AsciiIsItself(s[1..]);
      assert Encoded(s) == [s[0]] + Encoded(s[1..]);
    }
  }

  // ----- reading it back

  predicate Continues(b: seq<Byte>, k: nat) {
    k < |b| && 0x80 <= b[k] < 0xc0
  }

  /** The first code point of some bytes and how many bytes it takes (RFC 3629, section 3). */
  function ReadPoint(b: seq<Byte>): (r: Option<(nat, nat)>)
    ensures r.Some? ==> r.value.0 < 0x11_0000 && 0 < r.value.1 <= |b|
  {
    if b == [] then None
    else
      var first: int := b[0];
      if first < 0x80 then Some((first, 1))
      else if 0xc0 <= first < 0xe0 && Continues(b, 1) then Some(((first - 0xc0) * 0x40 + SixBits(b, 1), 2))
      else if 0xe0 <= first < 0xf0 && Continues(b, 1) && Continues(b, 2) then
        Some(((first - 0xe0) * 0x1000 + SixBits(b, 1) * 0x40 + SixBits(b, 2), 3))
      else if 0xf0 <= first < 0xf5 && Continues(b, 1) && Continues(b, 2) && Continues(b, 3) then
        var p := (first - 0xf0) * 0x4_0000 + SixBits(b, 1) * 0x1000 + SixBits(b, 2) * 0x40 + SixBits(b, 3);
        if p < 0x11_0000 then Some((p, 4)) else None
      else None
  }

  function SixBits(b: seq<Byte>, k: nat): (n: nat)
    requires Continues(b, k)
    ensures n < 0x40
  {
    var c: int := b[k];
    c - 0x80
  }

  /** A code point in UTF-16 (RFC 2781, section 2.1). */
  function Units(p: nat): seq<CodeUnit>
    requires p < 0x11_0000
  {
    if p < 0x1_0000 then [p] else [0xd800 + (p - 0x1_0000) / 0x400, 0xdc00 + (p - 0x1_0000) % 0x400]
  }

  function Read(b: seq<Byte>): seq<CodeUnit> {
    match ReadPoint(b)
    case None => []
    case Some((p, n)) => Units(p) + Read(b[n..])
  }

  /** The string with the replacement character for each surrogate on its own. */
  function Repaired(s: seq<CodeUnit>): seq<CodeUnit> {
    if s == [] then []
    else if |s| >= 2 && IsHigh(s[0]) && IsLow(s[1]) then s[..2] + Repaired(s[2..])
    else [if IsHigh(s[0]) || IsLow(s[0]) then 0xfffd else s[0]] + Repaired(s[1..])
  }

  lemma {:induction false} PointReads(p: nat, rest: seq<Byte>)
    requires p < 0x11_0000
    ensures var b := EncodePoint(p);
            ReadPoint(b + rest) == Some((p, |b|)) && (b + rest)[|b|..] == rest
  {
    var b := EncodePoint(p) + rest;
    if 0x800 <= p < 0x1_0000 {
      assert p / 0x40 == 0x40 * (p / 0x1000) + p / 0x40 % 0x40;
    } else if p >= 0x1_0000 {
      assert p / 0x40 == 0x40 * (p / 0x1000) + p / 0x40 % 0x40 && p / 0x1000 == 0x40 * (p / 0x4_0000) + p / 0x1000 % 0x40;
    }
  }

  /** Reading the bytes of a string gives it back, with its surrogate pairs. */
  lemma {:induction false} ReadsBack(s: seq<CodeUnit>)
    ensures Read(Encoded(s)) == Repaired(s)
  {
    hide EncodePoint, ReadPoint;
    if s != [] {
      if |s| >= 2 && IsHigh(s[0]) && IsLow(s[1]) {
        PointReads(PairPoint(s[0], s[1]), Encoded(s[2..]));
        ReadsBack(s[2..]);
        assert Units(PairPoint(s[0], s[1])) == s[..2];
      } else {
        PointReads(if IsHigh(s[0]) || IsLow(s[0]) then 0xfffd else s[0], Encoded(s[1..]));
        ReadsBack(s[1..]);
      }
    }
  }
}
