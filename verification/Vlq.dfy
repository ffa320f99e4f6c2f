/** Base64 VLQ numbers (ECMA-426, "Base64 VLQ"): the digit table, the decoder of the
    source map reader, and a reference encoder. Strings are sequences of UTF-16 code units. */
module Vlq {
  import opened JsNumbers
  import opened Wrappers

  const COMMA: CodeUnit := ',' as int
  const SEMICOLON: CodeUnit := ';' as int

  /** The 64 base64 digits in order. */
  const VLQ_CHARS: seq<CodeUnit> := seq(64, d requires 0 <= d < 64 => DigitChar(d))

  datatype ErrorText =
    | ExpectedExtraData
    | InvalidCharacter
    | InvalidGeneratedColumn
    | InvalidOriginalSource
    | InvalidOriginalLine
    | InvalidOriginalColumn
    | InvalidOriginalName
    | InvalidCharacterAfterMapping

  /** The decoder's one exception, with the input index its message names. */
  datatype DecodeError = DecodeError(index: nat, text: ErrorText)

  /** A number read, and the index after it. */
  datatype Reading = Reading(value: int, next: nat)

  type VlqResult = Result<Reading, DecodeError>

  /** Code unit of the base64 digit `d`: A-Z, a-z, 0-9, +, /. */
  function DigitChar(d: nat): (c: CodeUnit)
    requires d < 64
    ensures c < 128 && c != COMMA && c != SEMICOLON
  {
    if d < 26 then 'A' as int + d
    else if d < 52 then 'a' as int + (d - 26)
    else if d < 62 then '0' as int + (d - 52)
    else if d == 62 then '+' as int
    else '/' as int
  }

  /** Entry `c` of the 128-entry lookup table: the position of `c` in the alphabet, or 0xff. */
  function DigitOf(c: CodeUnit): (d: nat)
    requires c < 128
    ensures d < 64 ==> DigitChar(d) == c
    ensures d >= 64 ==> d == 0xff && forall e :: 0 <= e < 64 ==> DigitChar(e) != c
  {
    if 'A' as int <= c <= 'Z' as int then c - 'A' as int
    else if 'a' as int <= c <= 'z' as int then c - 'a' as int + 26
    else if '0' as int <= c <= '9' as int then c - '0' as int + 52
    else if c == '+' as int then 62
    else if c == '/' as int then 63
    else 0xff
  }

  /** The signed value in the 32-bit accumulator: the sign is bit 0, the rest is shifted
      arithmetically. */
  function SignedValue(vlq: nat): (v: int)
    ensures -0x4000_0000 <= v <= 0x4000_0000
  {
    var s := ToInt32(vlq);
    if s % 2 == 1 then -(s / 2) else s / 2
  }

  /** What the decoding loop computes from index `i` on, with `shift` and `vlq` so far. */
  function DecodeFrom(s: seq<CodeUnit>, i: nat, shift: nat, vlq: nat): (r: VlqResult)
    ensures r.Success? ==> i < r.value.next <= |s| && -0x4000_0000 <= r.value.value <= 0x4000_0000
    ensures r.Failure? ==> i <= r.error.index
    decreases |s| - i
  {
    if i >= |s| then Failure(DecodeError(i, ExpectedExtraData))
    else if s[i] >= 128 || DigitOf(s[i]) == 0xff then Failure(DecodeError(i, InvalidCharacter))
    else
      var d := DigitOf(s[i]);
      var acc := OrBits(vlq, ShiftLeft(d % 32, shift));
      if d < 32 then Success(Reading(SignedValue(acc), i + 1)) else DecodeFrom(s, i + 1, shift + 5, acc)
  }

  function DecodeAt(s: seq<CodeUnit>, i: nat): (r: VlqResult)
    ensures r.Success? ==> i < r.value.next <= |s| && -0x4000_0000 <= r.value.value <= 0x4000_0000
    ensures r.Failure? ==> i <= r.error.index
  {
    DecodeFrom(s, i, 0, 0)
  }

  // ----- the reference encoder

  function EncodeDigits(x: nat): (r: seq<CodeUnit>)
    ensures |r| >= 1
    ensures forall k :: 0 <= k < |r| ==> r[k] != COMMA && r[k] != SEMICOLON
  {
    if x < 32 then [DigitChar(x)] else [DigitChar(32 + x % 32)] + EncodeDigits(x / 32)
  }

  /** The sign moves to bit 0. */
  function ToVlq(v: int): nat {
    if v < 0 then 2 * -v + 1 else 2 * v
  }

  function Encode(v: int): (r: seq<CodeUnit>)
    ensures |r| >= 1
    ensures forall k :: 0 <= k < |r| ==> r[k] != COMMA && r[k] != SEMICOLON
  {
    EncodeDigits(ToVlq(v))
  }

  // ----- the loops of the source

  /** Filling the lookup table from the alphabet gives `DigitOf`. */
  method BuildTable() returns (table: array<int>)
    ensures fresh(table) && table.Length == 128
    ensures forall c :: 0 <= c < 128 ==> table[c] == DigitOf(c)
  {
    table := new int[128](_ => 0xff);
    for i := 0 to |VLQ_CHARS|
      invariant forall c :: 0 <= c < 128 ==> table[c] == if DigitOf(c) < i then DigitOf(c) else 0xff
    {
      table[VLQ_CHARS[i]] := i;
    }
  }

  method DecodeVLQ(mappings: seq<CodeUnit>, start: nat) returns (r: VlqResult)
    ensures r == DecodeAt(mappings, start)
  {
    var i, shift, vlq := start, 0, 0;
    while true
      invariant start <= i
      invariant DecodeFrom(mappings, i, shift, vlq) == DecodeAt(mappings, start)
      decreases |mappings| - i
    {
      if i >= |mappings| {
        return Failure(DecodeError(i, ExpectedExtraData));
      }
      var c := mappings[i];
      if c >= 128 {
        return Failure(DecodeError(i, InvalidCharacter));
      }
      var index := DigitOf(c);
      if index == 0xff {
        return Failure(DecodeError(i, InvalidCharacter));
      }
      i := i + 1;
      vlq := OrBits(vlq, ShiftLeft(index % 32, shift));
      shift := shift + 5;
      if index / 32 % 2 == 0 {
        break;
      }
    }
    r := Success(Reading(SignedValue(vlq), i));
  }

  // ----- round trip

  /** Splitting `x` at its low five bits, in units of `p`. */
  lemma {:induction false} SplitDigit(x: nat, p: nat)
    ensures x % 32 * p + x / 32 * (32 * p) == x * p
    ensures x % 32 * p <= 31 * p && x % 32 * p <= x * p
  {
    var low, high := x % 32, x / 32;
    calc {
      x * p;
      (low + 32 * high) * p;
      low * p + 32 * high * p;
      low * p + high * (32 * p);
    }
    MulMonotone(low, 31, p);
    MulMonotone(low, x, p);
  }

  /** One digit of the decoder puts the low five bits of `x` at position `shift`. */
  lemma {:induction false} DigitStep(vlq: nat, x: nat, shift: nat)
    requires vlq < Pow2(shift) && (x == 0 ==> shift < 32)
    requires vlq + x * Pow2(shift) < TWO_32
    ensures OrBits(vlq, ShiftLeft(x % 32, shift)) == vlq + x % 32 * Pow2(shift)
  {
    assert shift < 32 by {
      if shift >= 32 {
        Pow2At32();
        Pow2Monotone(32, shift);
        MulMonotone(1, x, Pow2(shift));
      }
    }
    SplitDigit(x, Pow2(shift));
    ShiftExact(x % 32, shift);
    OrDisjoint(vlq, x % 32, shift);
  }

  /** The remaining digits stand five bits further up. */
  lemma {:induction false} NextDigit(vlq: nat, x: nat, shift: nat)
    requires vlq < Pow2(shift)
    ensures var acc := vlq + x % 32 * Pow2(shift);
            acc < Pow2(shift + 5) && acc + x / 32 * Pow2(shift + 5) == vlq + x * Pow2(shift)
  {
    Pow2Add(shift, 5);
    assert Pow2(5) == 32;
    SplitDigit(x, Pow2(shift));
  }

  lemma {:induction false} DigitsDecode(s: seq<CodeUnit>, i: nat, shift: nat, vlq: nat, x: nat, rest: seq<CodeUnit>)
    requires i <= |s| && s[i..] == EncodeDigits(x) + rest
    requires vlq < Pow2(shift) && (x == 0 ==> shift < 32)
    requires vlq + x * Pow2(shift) < TWO_32
    ensures DecodeFrom(s, i, shift, vlq) == Success(Reading(SignedValue(vlq + x * Pow2(shift)), i + |EncodeDigits(x)|))
    decreases x
  {
    hide OrBits, ShiftLeft, Pow2, SignedValue;
    var d := if x < 32 then x else 32 + x % 32;
    assert s[i] == s[i..][0] == DigitChar(d);
    assert DigitOf(s[i]) == d && d % 32 == x % 32;
    DigitStep(vlq, x, shift);
    if x >= 32 {
      NextDigit(vlq, x, shift);
      assert s[i + 1..] == s[i..][1..] == EncodeDigits(x / 32) + rest;
      DigitsDecode(s, i + 1, shift + 5, vlq + x % 32 * Pow2(shift), x / 32, rest);
    } else {
      SmallMod(x, 32);
    }
  }

  /** The sign bit comes back exactly when the magnitude leaves bit 31 clear. */
  lemma {:induction false} SignRoundTrip(v: int)
    requires -0x4000_0000 <= v <= 0x4000_0000
    ensures SignedValue(ToVlq(v)) == v <==> -0x4000_0000 < v < 0x4000_0000
  {
    var x := ToVlq(v);
    SmallMod(x, TWO_32);
    if v < 0 {
      assert x == 2 * -v + 1;
      assert (x - TWO_32) / 2 == -v - TWO_31;
    }
  }

  lemma {:induction false} EncodedDecodes(v: int, s: seq<CodeUnit>, i: nat, rest: seq<CodeUnit>)
    requires -0x4000_0000 <= v <= 0x4000_0000
    requires i <= |s| && s[i..] == Encode(v) + rest
    ensures DecodeAt(s, i) == Success(Reading(SignedValue(ToVlq(v)), i + |Encode(v)|))
  {
    hide DecodeFrom, EncodeDigits, SignedValue;
    var x := ToVlq(v);
    assert x * Pow2(0) == x;
    DigitsDecode(s, i, 0, 0, x, rest);
  }

  /** Every number the 32-bit accumulator can hold comes back, with exactly its own
      digits consumed; no number outside that range ever does. */
  lemma {:induction false} RoundTrip(v: int, s: seq<CodeUnit>, i: nat, rest: seq<CodeUnit>)
    requires i <= |s| && s[i..] == Encode(v) + rest
    ensures DecodeAt(s, i) == Success(Reading(v, i + |Encode(v)|)) <==> -0x4000_0000 < v < 0x4000_0000
  {
    if -0x4000_0000 <= v <= 0x4000_0000 {
      EncodedDecodes(v, s, i, rest);
      SignRoundTrip(v);
    }
  }
}
