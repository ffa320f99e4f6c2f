/** The package list for `add` completions: the length-prefixed encoding, its decoder, and the
    index by first letter. */
module Completions {
  import opened Bytes
  import opened JsNumbers
  import opened Utf8
  import opened Wrappers

  /** A name as the script has it, a string of UTF-16 code units. */
  datatype Name = Name(text: seq<CodeUnit>)

  // ----- the encoding

  /** The lengths fit their prefixes; otherwise writing them throws a RangeError. */
  predicate Encodable(names: seq<Name>) {
    |names| < 0x1_0000_0000 && forall n :: n in names ==> |n.text| < 0x1_0000
  }

  /** Each name in UTF-8, behind its length in code units. */
  function EncodeNames(names: seq<Name>): seq<Byte>
    requires forall n :: n in names ==> |n.text| < 0x1_0000
  {
    if names == [] then []
    else LE16(|names[0].text|) + Encoded(names[0].text) + EncodeNames(names[1..])
  }

  function Encode(names: seq<Name>): seq<Byte>
    requires Encodable(names)
  {
    LE32(|names|) + EncodeNames(names)
  }

  function SumLengths(names: seq<Name>): nat {
    if names == [] then 0 else 2 + |names[0].text| + SumLengths(names[1..])
  }

  /** The size the script counts, from which the emitted code makes its buffer. */
  function TotalUncompressed(names: seq<Name>): nat {
    4 + SumLengths(names)
  }

  method EncodePackages(names: seq<Name>) returns (r: Option<(seq<Byte>, nat)>)
    ensures r == if Encodable(names) then Some((Encode(names), TotalUncompressed(names))) else None
  {
    hide LE16, LE32, Encoded, EncodeNames, SumLengths;
    if |names| >= 0x1_0000_0000 {
      return None;
    }
    var data, totalUncompressed := LE32(|names|), 4;
    assert names[0..] == names;
    for i := 0 to |names|
      invariant forall n :: n in names[..i] ==> |n.text| < 0x1_0000
      invariant Encodable(names) ==> data + EncodeNames(names[i..]) == Encode(names)
      invariant totalUncompressed + SumLengths(names[i..]) == TotalUncompressed(names)
    {
      if |names[i].text| >= 0x1_0000 {
        assert names[i] in names;
        return None;
      }
      RestEncoded(names, i);
      assert Encodable(names) ==>
          data + EncodeNames(names[i..]) == data + LE16(|names[i].text|) + Encoded(names[i].text) + EncodeNames(names[i + 1..]);
      data := data + LE16(|names[i].text|) + Encoded(names[i].text);
      totalUncompressed := totalUncompressed + 2 + |names[i].text|;
    }
    RestEncoded(names, |names|);
    assert names[..|names|] == names && data + [] == data;
    r := Some((data, totalUncompressed));
  }

  lemma {:induction false} RestEncoded(names: seq<Name>, i: nat)
    requires i <= |names|
    ensures SumLengths(names[i..]) == if i == |names| then 0 else 2 + |names[i].text| + SumLengths(names[i + 1..])
    ensures Encodable(names) ==>
              EncodeNames(names[i..]) == if i == |names| then [] else LE16(|names[i].text|) + Encoded(names[i].text) + EncodeNames(names[i + 1..])
  {
    hide LE16, Encoded;
    assert i < |names| ==> names[i..][1..] == names[i + 1..];
  }

  // ----- the decoder

  /** The next `count` names from `pos` on; None where the emitted code would read past the end. */
  function DecodeFrom(data: seq<Byte>, pos: nat, count: nat): (r: Option<seq<seq<Byte>>>)
    ensures r.Some? ==> |r.value| == count
    decreases count
  {
    if count == 0 then Some([])
    else if pos + 2 > |data| || pos + 2 + U16(data, pos) > |data| then None
    else
      var end := pos + 2 + U16(data, pos);
      match DecodeFrom(data, end, count - 1)
      case None => None
      case Some(rest) => Some([data[pos + 2..end]] + rest)
  }

  function Decode(data: seq<Byte>): Option<seq<seq<Byte>>> {
    if |data| < 4 then None else DecodeFrom(data, 4, U32(data, 0))
  }

  /** The loop of the emitted `init` over the decompressed data. */
  method ParsePackages(data: seq<Byte>) returns (r: Option<seq<seq<Byte>>>)
    ensures r == Decode(data)
  {
    hide U16, U32;
    if |data| < 4 {
      return None;
    }
    var total := U32(data, 0);
    var packages: seq<seq<Byte>> := [];
    var pos, i := 4, 0;
    assert DecodeFrom(data, 4, total).Some? ==> packages + DecodeFrom(data, 4, total).value == DecodeFrom(data, 4, total).value;
    while i < total
      invariant i <= total && pos >= 4
      invariant match DecodeFrom(data, pos, total - i)
                case None => Decode(data) == None
                case Some(rest) => Decode(data) == Some(packages + rest)
    {
      if pos + 2 > |data| {
        return None;
      }
      var len := U16(data, pos);
      pos := pos + 2;
      if pos + len > |data| {
        return None;
      }
      ghost var others := DecodeFrom(data, pos + len, total - i - 1);
      assert others.Some? ==> packages + ([data[pos..pos + len]] + others.value) == packages + [data[pos..pos + len]] + others.value;
      packages := packages + [data[pos..pos + len]];
      pos := pos + len;
      i := i + 1;
    }
    assert packages + [] == packages;
    r := Some(packages);
  }

  /** What the emitted `init` makes of `content`: it is decompressed into a buffer of `size`
      bytes, which fails if it does not fit, and leaves `rest` behind it. */
  function Unpacked(content: seq<Byte>, size: nat, rest: seq<Byte>): Option<seq<seq<Byte>>> {
    if |content| > size then None else Decode(content + rest)
  }

  method DecodePackages(content: seq<Byte>, size: nat, rest: seq<Byte>) returns (r: Option<seq<seq<Byte>>>)
    requires |content| <= size ==> |content| + |rest| == size
    ensures r == Unpacked(content, size, rest)
  {
    if |content| > size {
      return None;
    }
    r := ParsePackages(content + rest);
  }

  predicate AllAscii(names: seq<Name>) {
    forall n :: n in names ==> IsAscii(n.text)
  }

  /** The list that should come back: the names in UTF-8. */
  function BytesOf(names: seq<Name>): (b: seq<seq<Byte>>)
    ensures |b| == |names|
  {
    seq(|names|, i requires 0 <= i < |names| => Encoded(names[i].text))
  }

  lemma {:induction false} AllAsciiTail(names: seq<Name>)
    ensures AllAscii(names) <==> names == [] || (IsAscii(names[0].text) && AllAscii(names[1..]))
  {
    hide IsAscii;
    assert names != [] ==> forall n :: n in names <==> n == names[0] || n in names[1..];
  }

  /** The names come back exactly if each has as many bytes as code units. */
  lemma {:induction false} NamesDecode(data: seq<Byte>, pos: nat, names: seq<Name>)
    requires forall n :: n in names ==> |n.text| < 0x1_0000 && n.text != []
    requires pos <= |data| && data[pos..] == EncodeNames(names)
    ensures DecodeFrom(data, pos, |names|) == Some(BytesOf(names)) <==> AllAscii(names)
    decreases |names|
  {
    hide LE16, U16, Encoded, IsAscii, AllAscii;
    AllAsciiTail(names);
    if names == [] {
      assert BytesOf(names) == [];
    } else {
      var n, rest := names[0], EncodeNames(names[1..]);
      var bytes := Encoded(n.text);
      LengthIffAscii(n.text);
      assert data[pos..|data|] == LE16(|n.text|) + (bytes + rest);
      SplitAt(data, pos, |data|, LE16(|n.text|), bytes + rest);
      SplitAt(data, pos + 2, |data|, bytes, rest);
      ReadLE16(data, pos, |n.text|);
      var end := pos + 2 + |n.text|;
      assert BytesOf(names) == [bytes] + BytesOf(names[1..]);
      assert BytesOf(names)[0] == bytes && BytesOf(names)[1..] == BytesOf(names[1..]);
      if IsAscii(n.text) {
        NamesDecode(data, end, names[1..]);
      } else {
        var r := DecodeFrom(data, pos, |names|);
        assert r.Some? ==> |r.value[0]| == |n.text|;
      }
    }
  }

  lemma {:induction false} LengthsAgreeIffAscii(names: seq<Name>)
    requires forall n :: n in names ==> |n.text| < 0x1_0000
    ensures |EncodeNames(names)| >= SumLengths(names)
    ensures |EncodeNames(names)| == SumLengths(names) <==> AllAscii(names)
  {
    hide LE16, Encoded, IsAscii, AllAscii;
    AllAsciiTail(names);
    if names != [] {
      LengthsAgreeIffAscii(names[1..]);
      LengthIffAscii(names[0].text);
    }
  }

  /** The counting loop alone recovers the list exactly when every name is ASCII. */
  lemma {:induction false} LoopIffAscii(names: seq<Name>)
    requires Encodable(names) && NonEmpty(names)
    ensures Decode(Encode(names)) == Some(BytesOf(names)) <==> AllAscii(names)
  {
    hide LE32, U32, EncodeNames, AllAscii;
    var data := Encode(names);
    assert data[0..4] == LE32(|names|);
    ReadLE32(data, 0, |names|);
    NamesDecode(data, 4, names);
  }

  /** What the emitted `init` makes of what the script has written: the names themselves if all
      are ASCII, and a failure to decompress if one is not, since the buffer is too small. */
  lemma {:induction false} RoundTripIffAscii(names: seq<Name>, rest: seq<Byte>)
    requires Encodable(names) && NonEmpty(names)
    requires |Encode(names)| <= TotalUncompressed(names) ==> |Encode(names)| + |rest| == TotalUncompressed(names)
    ensures Unpacked(Encode(names), TotalUncompressed(names), rest) == (if AllAscii(names) then Some(BytesOf(names)) else None)
    ensures var content, size := Encode(names), TotalUncompressed(names);
            && (|content| <= size <==> AllAscii(names))
            && (AllAscii(names) ==> |content| == size)
            && (AllAscii(names) ==> forall i :: 0 <= i < |names| ==> SameCodes(BytesOf(names)[i], names[i].text))
  {
    hide LE32, U32, EncodeNames, Decode, IsAscii, Encoded, SameCodes;
    LengthsAgreeIffAscii(names);
    LoopIffAscii(names);
    if AllAscii(names) {
      assert rest == [] && Encode(names) + rest == Encode(names);
      forall i | 0 <= i < |names| ensures SameCodes(BytesOf(names)[i], names[i].text) {
        assert names[i] in names;
        AsciiIsItself(names[i].text);
      }
    }
  }

  // ----- the index by first letter

  const LETTER_A: nat := 97  // 'a'
  const LETTER_Z: nat := 122  // 'z'

  /** What `toLowerCase` makes of a code unit, as far as it makes a letter from a to z: the
      capitals, and the Kelvin sign. */
  function Lower(c: CodeUnit): nat {
    if IsCapital(c) then c + 32 else if c == 0x212a then 0x6b else c
  }

  predicate IsCapital(c: CodeUnit) {
    'A' as int <= c <= 'Z' as int
  }

  /** Every name has a first letter; the source indexes `name[0]`. */
  predicate NonEmpty(names: seq<Name>) {
    forall n :: n in names ==> n.text != []
  }

  /** The first letter in lower case. */
  function First(n: Name): nat
    requires n.text != []
  {
    Lower(n.text[0])
  }

  const SMALL := "abcdefghijklmnopqrstuvwxyz"
  const CAPITAL := "ABCDEFGHIJKLMNOPQRSTUVWXYZ"
  const KELVIN_SIGN: CodeUnit := 0x212a

  /** The group of a letter: the names that start with it, small or capital; the Kelvin sign is
      a capital k. */
  lemma {:induction false} FirstIsLetter(n: Name, k: nat)
    requires n.text != [] && k < 26
    ensures First(n) == LETTER_A + k
       <==> n.text[0] == SMALL[k] as int || n.text[0] == CAPITAL[k] as int || (SMALL[k] == 'k' && n.text[0] == KELVIN_SIGN)
  {
    assert SMALL[k] as int == LETTER_A + k && CAPITAL[k] as int == 'A' as int + k;
  }

  /** The names with the letter, in their order. */
  function StartingWith(names: seq<Name>, letter: nat): seq<Name>
    requires NonEmpty(names)
  {
    if names == [] then []
    else
      var front, last := names[..|names| - 1], names[|names| - 1];
      if First(last) == letter then StartingWith(front, letter) + [last] else StartingWith(front, letter)
  }

  lemma {:induction false} OneMore(names: seq<Name>, i: nat, letter: nat)
    requires i < |names| && NonEmpty(names)
    ensures StartingWith(names[..i + 1], letter)
         == if First(names[i]) == letter then StartingWith(names[..i], letter) + [names[i]] else StartingWith(names[..i], letter)
  {
    assert names[..i + 1][..i] == names[..i];
  }

  function OffsetOf(names: seq<Name>, letter: nat): nat
    requires NonEmpty(names)
    requires letter >= LETTER_A
  {
    if letter == LETTER_A then 0 else OffsetOf(names, letter - 1) + |StartingWith(names, letter - 1)|
  }

  /** How many names each first letter has, and the length of the longest list. */
  method GroupByLetter(names: seq<Name>) returns (groups: map<nat, nat>, biggest: nat)
    requires NonEmpty(names)
    ensures forall letter: nat :: |StartingWith(names, letter)| == if letter in groups then groups[letter] else 0
    ensures forall letter: nat :: letter in groups ==> groups[letter] <= biggest
    ensures if names == [] then biggest == 0 else exists letter: nat :: letter in groups && groups[letter] == biggest
  {
    groups, biggest := map[], 0;
    for i := 0 to |names|
      invariant forall letter: nat ::
          |StartingWith(names[..i], letter)| == if letter in groups then groups[letter] else 0
      invariant forall letter: nat :: letter in groups ==> groups[letter] <= biggest
      invariant if i == 0 then biggest == 0 else exists letter: nat :: letter in groups && groups[letter] == biggest
    {
      ghost var most := if i == 0 then 0 else var l: nat :| l in groups && groups[l] == biggest; l;
      forall letter: nat
        ensures |StartingWith(names[..i + 1], letter)|
             == |StartingWith(names[..i], letter)| + if First(names[i]) == letter then 1 else 0
      {
        OneMore(names, i, letter);
      }
      hide StartingWith;
      var first: nat := First(names[i]);
      if first !in groups {
        groups := groups[first := 0];
      }
      groups := groups[first := groups[first] + 1];
      if groups[first] > biggest {
        biggest := groups[first];
      }
      assert groups[if groups[first] == biggest then first else most] == biggest;
    }
    assert names[..|names|] == names;
  }

  /** The index: the offset and the length of each of the 26 letters, and the longest list. */
  method BuildIndex(names: seq<Name>) returns (offsets: seq<nat>, lengths: seq<nat>, biggest: nat)
    requires NonEmpty(names)
    ensures |offsets| == |lengths| == 26
    ensures forall k :: 0 <= k < 26 ==> offsets[k] == OffsetOf(names, LETTER_A + k)
    ensures forall k :: 0 <= k < 26 ==> lengths[k] == |StartingWith(names, LETTER_A + k)| <= biggest
    ensures if names == [] then biggest == 0 else exists letter: nat :: |StartingWith(names, letter)| == biggest
  {
    hide StartingWith;
    var groups;
    groups, biggest := GroupByLetter(names);
    offsets, lengths := [], [];
    var offset := 0;
    for k := 0 to 26
      invariant |offsets| == |lengths| == k
      invariant offset == OffsetOf(names, LETTER_A + k)
      invariant forall j :: 0 <= j < k ==> offsets[j] == OffsetOf(names, LETTER_A + j)
      invariant forall j :: 0 <= j < k ==> lengths[j] == |StartingWith(names, LETTER_A + j)| <= biggest
    {
      var length := if LETTER_A + k in groups then groups[LETTER_A + k] else 0;
      assert length == |StartingWith(names, LETTER_A + k)|;
      offsets := offsets + [offset];
      lengths := lengths + [length];
      offset := offset + length;
    }
  }

  // ----- what the index selects

  lemma {:induction false} NoOffset(letter: nat)
    requires letter >= LETTER_A
    ensures OffsetOf([], letter) == 0
    decreases letter
  {
    if letter > LETTER_A {
      NoOffset(letter - 1);
    }
  }

  /** The offset of a letter counts the names that start with an earlier one. */
  lemma {:induction false} OffsetStep(names: seq<Name>, letter: nat)
    requires names != [] && letter >= LETTER_A && NonEmpty(names)
    ensures OffsetOf(names, letter)
         == OffsetOf(names[..|names| - 1], letter) + if LETTER_A <= First(names[|names| - 1]) < letter then 1 else 0
    decreases letter
  {
    if letter > LETTER_A {
      OffsetStep(names, letter - 1);
    }
  }

  lemma {:induction false} IndexInBounds(names: seq<Name>, letter: nat)
    requires letter >= LETTER_A && NonEmpty(names)
    ensures OffsetOf(names, letter) + |StartingWith(names, letter)| <= |names|
    decreases |names|
  {
    if names == [] {
      NoOffset(letter);
    } else {
      IndexInBounds(names[..|names| - 1], letter);
      OffsetStep(names, letter);
    }
  }

  /** The emitted `getPackages`: the slice of the whole list that the index names. */
  function GetPackages(names: seq<Name>, letter: nat): seq<Name>
    requires letter >= LETTER_A && NonEmpty(names)
  {
    var offset, length := OffsetOf(names, letter), |StartingWith(names, letter)|;
    IndexInBounds(names, letter);
    if length == 0 then [] else names[offset..offset + length]
  }

  lemma {:induction false} SelectedSlice(names: seq<Name>, letter: nat)
    requires letter >= LETTER_A && NonEmpty(names)
    ensures OffsetOf(names, letter) <= OffsetOf(names, letter + 1) <= |names|
    ensures GetPackages(names, letter) == names[OffsetOf(names, letter)..OffsetOf(names, letter + 1)]
  {
    IndexInBounds(names, letter);
  }

  ghost predicate IndexRight(names: seq<Name>)
    requires NonEmpty(names)
  {
    forall letter: nat :: LETTER_A <= letter <= LETTER_Z ==> GetPackages(names, letter) == StartingWith(names, letter)
  }

  predicate IsLetter(c: nat) {
    LETTER_A <= c <= LETTER_Z
  }

  /** Whatever comes before a name that starts with a letter starts with the same letter or
      an earlier one, in either case. */
  ghost predicate InLetterOrder(names: seq<Name>)
    requires NonEmpty(names)
  {
    forall i, j :: 0 <= i < j < |names| && IsLetter(First(names[j])) ==> LETTER_A <= First(names[i]) <= First(names[j])
  }

  lemma {:induction false} AllCounted(names: seq<Name>, letter: nat)
    requires letter >= LETTER_A && NonEmpty(names)
    requires forall i :: 0 <= i < |names| ==> LETTER_A <= First(names[i]) < letter
    ensures OffsetOf(names, letter) == |names|
    decreases |names|
  {
    if names == [] {
      NoOffset(letter);
    } else {
      AllCounted(names[..|names| - 1], letter);
      OffsetStep(names, letter);
    }
  }

  lemma {:induction false} LastIsHighest(names: seq<Name>)
    requires NonEmpty(names) && InLetterOrder(names) && names != []
    ensures names[|names| - 1].text != []
    ensures var front, c := names[..|names| - 1], First(names[|names| - 1]);
            && NonEmpty(front) && InLetterOrder(front)
            && (IsLetter(c) ==> forall i :: 0 <= i < |front| ==> LETTER_A <= First(front[i]) <= c)
  {
  }

  lemma {:induction false} SliceOfFront<T>(xs: seq<T>, from: nat, to: nat)
    requires from <= to < |xs|
    ensures xs[..|xs| - 1][from..to] == xs[from..to]
    ensures to == |xs| - 1 ==> xs[from..] == xs[..|xs| - 1][from..to] + [xs[|xs| - 1]]
    ensures from == |xs| - 1 ==> xs[from..to] == [] == xs[from + 1..to + 1]
  {
  }

  /** In letter order, the names of a letter stand from its offset to the next. */
  lemma {:induction false} LetterIsSlice(names: seq<Name>, letter: nat)
    requires IsLetter(letter) && NonEmpty(names) && InLetterOrder(names)
    ensures OffsetOf(names, letter) <= OffsetOf(names, letter + 1) <= |names|
    ensures StartingWith(names, letter) == names[OffsetOf(names, letter)..OffsetOf(names, letter + 1)]
    decreases |names|
  {
    hide StartingWith, OffsetOf, GetPackages, NonEmpty, InLetterOrder, First;
    SelectedSlice(names, letter);
    if names == [] {
      NoneStart(letter);
    } else {
      LastIsHighest(names);
      var front, c := names[..|names| - 1], First(names[|names| - 1]);
      LetterIsSlice(front, letter);
      StartingStep(names, letter);
      OffsetStep(names, letter);
      OffsetStep(names, letter + 1);
      var from, to := OffsetOf(front, letter), OffsetOf(front, letter + 1);
      SliceOfFront(names, from, to);
      if IsLetter(c) && c < letter {
        AllCounted(front, letter);
        assert from == |names| - 1;
      } else if c == letter {
        AllCounted(front, letter + 1);
        assert to == |names| - 1 && names[from..] == names[from..to + 1];
      }
    }
  }

  lemma {:induction false} NoneStart(letter: nat)
    requires letter >= LETTER_A
    ensures StartingWith([], letter) == [] && OffsetOf([], letter) == 0 && OffsetOf([], letter + 1) == 0
  {
    NoOffset(letter);
  }

  lemma {:induction false} StartingStep(names: seq<Name>, letter: nat)
    requires names != [] && NonEmpty(names)
    ensures StartingWith(names, letter) == StartingWith(names[..|names| - 1], letter)
         + if First(names[|names| - 1]) == letter then [names[|names| - 1]] else []
  {
  }

  /** The first `n` names are in order, and start with letters before `letter`. */
  ghost predicate OrderedBelow(names: seq<Name>, n: nat, letter: nat)
    requires NonEmpty(names) && n <= |names|
  {
    && (forall i :: 0 <= i < n ==> LETTER_A <= First(names[i]) < letter)
    && forall i, j :: 0 <= i < j < n ==> First(names[i]) <= First(names[j])
  }

  ghost predicate SameLetter(names: seq<Name>, from: nat, to: nat, letter: nat)
    requires NonEmpty(names) && to <= |names|
  {
    forall i :: from <= i < to ==> First(names[i]) == letter
  }

  lemma {:induction false} RightMeansOrder(names: seq<Name>, letter: nat)
    requires LETTER_A <= letter <= LETTER_Z + 1 && NonEmpty(names) && IndexRight(names)
    ensures OffsetOf(names, letter) <= |names| && OrderedBelow(names, OffsetOf(names, letter), letter)
    decreases letter
  {
    hide StartingWith, GetPackages, OffsetOf, NonEmpty, First, IndexRight, OrderedBelow, SameLetter;
    if letter == LETTER_A {
      NothingBelow(names);
    } else {
      var previous: nat := letter - 1;
      RightMeansOrder(names, previous);
      RightAt(names, previous);
      OrderedFurther(names, OffsetOf(names, previous), OffsetOf(names, letter), previous);
    }
  }

  lemma {:induction false} NothingBelow(names: seq<Name>)
    requires NonEmpty(names)
    ensures OffsetOf(names, LETTER_A) == 0 && OrderedBelow(names, 0, LETTER_A)
  {
  }

  lemma {:induction false} RightAt(names: seq<Name>, letter: nat)
    requires IsLetter(letter) && NonEmpty(names) && IndexRight(names)
    ensures OffsetOf(names, letter) <= OffsetOf(names, letter + 1) <= |names|
    ensures SameLetter(names, OffsetOf(names, letter), OffsetOf(names, letter + 1), letter)
  {
    hide StartingWith, GetPackages, OffsetOf, First;
    SelectedSlice(names, letter);
    AllStartWith(names, letter);
    var slice, from := GetPackages(names, letter), OffsetOf(names, letter);
    assert slice == StartingWith(names, letter);
    forall i | from <= i < OffsetOf(names, letter + 1) ensures First(names[i]) == letter {
      assert names[i] == slice[i - from];
    }
  }

  lemma {:induction false} OrderedFurther(names: seq<Name>, from: nat, to: nat, letter: nat)
    requires NonEmpty(names) && from <= to <= |names| && letter >= LETTER_A && OrderedBelow(names, from, letter)
    requires SameLetter(names, from, to, letter)
    ensures OrderedBelow(names, to, letter + 1)
  {
    hide First;
  }

  lemma {:induction false} AllStartWith(names: seq<Name>, letter: nat)
    requires NonEmpty(names)
    ensures forall n :: n in StartingWith(names, letter) ==> n in names && First(n) == letter
  {
    if names != [] {
      AllStartWith(names[..|names| - 1], letter);
    }
  }

  lemma {:induction false} OffsetOfPrefix(names: seq<Name>, k: nat, letter: nat)
    requires k <= |names| && letter >= LETTER_A && NonEmpty(names)
    ensures OffsetOf(names[..k], letter) <= OffsetOf(names, letter)
    ensures forall j :: k <= j < |names| && LETTER_A <= First(names[j]) < letter ==>
              OffsetOf(names[..k], letter) < OffsetOf(names, letter)
    decreases |names|
  {
    if k == |names| {
      assert names[..k] == names;
    } else {
      var front := names[..|names| - 1];
      assert front[..k] == names[..k];
      OffsetOfPrefix(front, k, letter);
      OffsetStep(names, letter);
    }
  }

  /** Every letter selects exactly its names, if and only if the names are in letter order. */
  lemma {:induction false} IndexRightIff(names: seq<Name>)
    requires NonEmpty(names)
    ensures IndexRight(names) <==> InLetterOrder(names)
  {
    hide StartingWith, OffsetOf, GetPackages;
    if InLetterOrder(names) {
      forall letter: nat | LETTER_A <= letter <= LETTER_Z
        ensures GetPackages(names, letter) == StartingWith(names, letter)
      {
        LetterIsSlice(names, letter);
        SelectedSlice(names, letter);
      }
    }
    if IndexRight(names) {
      RightMeansOrder(names, LETTER_Z + 1);
      var total := OffsetOf(names, LETTER_Z + 1);
      AllCounted(names[..total], LETTER_Z + 1);
      OffsetOfPrefix(names, total, LETTER_Z + 1);
    }
  }

  /** `sort()` orders by code unit, so in particular by the first one. */
  ghost predicate SortedByFirst(names: seq<Name>)
    requires NonEmpty(names)
  {
    forall i, j :: 0 <= i < j < |names| ==> names[i].text[0] <= names[j].text[0]
  }

  /** Whatever sorts before the initial of a name that starts with a letter is the same letter
      in the other case, or an earlier letter. */
  ghost predicate InitialsInOrder(names: seq<Name>)
    requires NonEmpty(names)
  {
    forall m, n :: m in names && n in names && m.text[0] < n.text[0] && IsLetter(First(n)) ==> LETTER_A <= First(m) <= First(n)
  }

  /** For the sorted list that the script makes, that depends on the initials in it alone. */
  lemma {:induction false} SortedInLetterOrder(names: seq<Name>)
    requires NonEmpty(names) && SortedByFirst(names)
    ensures InLetterOrder(names) <==> InitialsInOrder(names)
  {
    hide Lower;
    if InitialsInOrder(names) {
      forall i, j | 0 <= i < j < |names| && IsLetter(First(names[j])) ensures LETTER_A <= First(names[i]) <= First(names[j]) {
        assert names[i] in names && names[j] in names && names[i].text[0] <= names[j].text[0];
      }
    }
    if InLetterOrder(names) {
      forall m, n | m in names && n in names && m.text[0] < n.text[0] && IsLetter(First(n)) ensures LETTER_A <= First(m) <= First(n) {
        var i, j :| 0 <= i < |names| && 0 <= j < |names| && names[i] == m && names[j] == n;
        assert i < j;
      }
    }
  }

  /** Without capital initials, that is so if and only if no name starts below `a`, or no name
      starts with a letter at all. */
  lemma {:induction false} WithoutCapitals(names: seq<Name>)
    requires NonEmpty(names) && forall n :: n in names ==> First(n) == n.text[0]
    ensures InitialsInOrder(names) <==>
              || (forall n :: n in names ==> n.text[0] >= LETTER_A)
              || (forall n :: n in names ==> !IsLetter(First(n)))
  {
    if m :| m in names && m.text[0] < LETTER_A {
      if n :| n in names && IsLetter(First(n)) {
        assert !InitialsInOrder(names);
      }
    }
  }

  /** The slices of the first `k` letters, one after the other. */
  function Slices(names: seq<Name>, k: nat): seq<Name>
    requires NonEmpty(names)
  {
    if k == 0 then [] else Slices(names, k - 1) + GetPackages(names, LETTER_A + k - 1)
  }

  /** The names before the offset of a letter. */
  ghost function Head(names: seq<Name>, letter: nat): seq<Name>
    requires NonEmpty(names) && letter >= LETTER_A
  {
    SelectedSlice(names, letter);
    names[..OffsetOf(names, letter)]
  }

  lemma {:induction false} SlicesAreHead(names: seq<Name>, k: nat)
    requires NonEmpty(names)
    ensures Slices(names, k) == Head(names, LETTER_A + k)
  {
    hide NonEmpty, GetPackages;
    if k > 0 {
      SlicesAreHead(names, k - 1);
      NextSlice(names, LETTER_A + k - 1);
      hide Head;
    }
  }

  lemma {:induction false} NextSlice(names: seq<Name>, letter: nat)
    requires letter >= LETTER_A && NonEmpty(names)
    ensures Head(names, letter) + GetPackages(names, letter) == Head(names, letter + 1)
  {
    hide GetPackages, StartingWith, OffsetOf;
    SelectedSlice(names, letter);
  }

  /** The 26 slices partition any list of names that all start with a letter. */
  lemma {:induction false} SlicesPartition(names: seq<Name>)
    requires NonEmpty(names) && forall n :: n in names ==> IsLetter(First(n))
    ensures Slices(names, 26) == names
  {
    SlicesAreHead(names, 26);
    AllCounted(names, LETTER_A + 26);
  }
}
